/**
 * The directory side of the job (`get_active_directory_users`): the raw
 * search results become `(employee id, account name)` pairs.
 *
 * The connection, the bind, the search and the unbind are library calls; the
 * model receives their combined result as a `DirectoryReply`. Attribute
 * values are byte strings; only their UTF-8 decoding matters, and it may fail.
 */
module ActiveDirectory {
  import opened Wrappers

  /** One attribute value: the text its bytes decode to, or a failing decode. */
  datatype AttrValue = Utf8(text: string) | NotUtf8

  /** One search result: the entry's distinguished name and its attributes, each a list of values. */
  datatype Entry = Entry(dn: string, attributes: map<string, seq<AttrValue>>)

  /** A user record as the job keeps it. */
  datatype User = User(employeeId: string, samAccountName: string)

  /** What the directory did: the bind or the search raised, or the search returned and the unbind then succeeded or raised. */
  datatype DirectoryReply =
    | BindFailed
    | SearchFailed
    | Searched(results: seq<Entry>, unbindOk: bool)

  const EMPLOYEE_ID := "employeeID"
  const ACCOUNT_NAME := "sAMAccountName"

  function Decode(v: AttrValue): Option<string> {
    if v.Utf8? then Some(v.text) else None
  }

  /** The entry has an `employeeID` attribute with at least one value; others are skipped. */
  predicate HasEmployeeId(e: Entry)
    ensures HasEmployeeId(e) <==> EMPLOYEE_ID in e.attributes && e.attributes[EMPLOYEE_ID] != []
  {
    EMPLOYEE_ID in e.attributes && |e.attributes[EMPLOYEE_ID]| > 0
  }

  /** The entries the extraction loop does not skip, in result order. */
  function Kept(results: seq<Entry>): (kept: seq<Entry>)
    ensures |kept| <= |results|
    ensures forall k :: 0 <= k < |kept| ==> HasEmployeeId(kept[k])
    decreases |results|
  {
    if results == [] then []
    else
      var last := results[|results| - 1];
      Kept(results[..|results| - 1]) + (if HasEmployeeId(last) then [last] else [])
  }

  /** The positions in `results` of the entries `Kept` returns. */
  ghost function KeptIndices(results: seq<Entry>): seq<nat>
    decreases |results|
  {
    if results == [] then []
    else
      KeptIndices(results[..|results| - 1]) + (if HasEmployeeId(results[|results| - 1]) then [|results| - 1] else [])
  }

  /**
   * One kept entry as a user: its first `employeeID` value and its first
   * `sAMAccountName` value, or `""` when that attribute is absent. None when a
   * value does not decode, or when `sAMAccountName` is present with no value
   * (indexing `[0]` of an empty list raises).
   */
  function DecodeEntry(e: Entry): (r: Option<User>)
    requires HasEmployeeId(e)
    ensures r.Some? ==> e.attributes[EMPLOYEE_ID][0] == Utf8(r.value.employeeId)
    ensures r.Some? && ACCOUNT_NAME !in e.attributes ==> r.value.samAccountName == ""
    ensures r.Some? && ACCOUNT_NAME in e.attributes ==>
      |e.attributes[ACCOUNT_NAME]| > 0 && e.attributes[ACCOUNT_NAME][0] == Utf8(r.value.samAccountName)
    ensures r.None? <==>
      || e.attributes[EMPLOYEE_ID][0].NotUtf8?
      || (ACCOUNT_NAME in e.attributes && (e.attributes[ACCOUNT_NAME] == [] || e.attributes[ACCOUNT_NAME][0].NotUtf8?))
  {
    var id := Decode(e.attributes[EMPLOYEE_ID][0]);
    var names := if ACCOUNT_NAME in e.attributes then e.attributes[ACCOUNT_NAME] else [Utf8("")];
    if |names| == 0 then None
    else
      var name := Decode(names[0]);
      if id.None? || name.None? then None else Some(User(id.value, name.value))
  }

  /** The users of a list of search results: every kept entry decoded, or None when any one of them fails. */
  function ExtractUsers(results: seq<Entry>): (r: Option<seq<User>>)
    ensures r.Some? ==> |r.value| == |Kept(results)| <= |results|
    ensures r.Some? ==> forall k :: 0 <= k < |r.value| ==> DecodeEntry(Kept(results)[k]) == Some(r.value[k])
  {
    var kept := Kept(results);
    if forall k | 0 <= k < |kept| :: DecodeEntry(kept[k]).Some? then
      Some(seq(|kept|, k requires 0 <= k < |kept| => DecodeEntry(kept[k]).value))
    else None
  }

  /** What `get_active_directory_users` returns: the extracted users, or `[]` after any failure. */
  function DirectoryUsers(reply: DirectoryReply): (users: seq<User>)
    ensures users != [] ==> reply.Searched? && reply.unbindOk && ExtractUsers(reply.results) == Some(users)
    ensures reply.Searched? && reply.unbindOk && ExtractUsers(reply.results).Some? ==> users == ExtractUsers(reply.results).value
    ensures reply.Searched? ==> |users| <= |reply.results|
  {
    match reply
    case Searched(results, unbindOk) => if unbindOk then ExtractUsers(results).GetOr([]) else []
    case _ => []
  }

  ghost predicate StrictlyIncreasing(s: seq<nat>) {
    forall k, l :: 0 <= k < l < |s| ==> s[k] < s[l]
  }

  /** `Kept` is exactly the filter of the entries with an employee id: an order-preserving selection of the positions that have one. */
  lemma {:induction false} KeptIsFilter(results: seq<Entry>)
    ensures |KeptIndices(results)| == |Kept(results)|
    ensures StrictlyIncreasing(KeptIndices(results))
    ensures forall k :: 0 <= k < |Kept(results)| ==>
      KeptIndices(results)[k] < |results| && Kept(results)[k] == results[KeptIndices(results)[k]]
    ensures forall i :: 0 <= i < |results| ==> (HasEmployeeId(results[i]) <==> i in KeptIndices(results))
  {
    if results != [] {
      var n := |results| - 1;
      var init := results[..n];
      KeptIsFilter(init);
      assert forall i :: 0 <= i < n ==> init[i] == results[i];
      assert forall k :: 0 <= k < |KeptIndices(init)| ==> KeptIndices(init)[k] < n;
      if HasEmployeeId(results[n]) {
        assert KeptIndices(results) == KeptIndices(init) + [n];
        assert Kept(results) == Kept(init) + [results[n]];
      } else {
        assert KeptIndices(results) == KeptIndices(init);
        assert Kept(results) == Kept(init);
      }
    }
  }

  /** Extraction fails, as a whole, exactly when some entry with an employee id does not decode. */
  lemma ExtractAllOrNothing(results: seq<Entry>)
    ensures ExtractUsers(results).None? <==>
      exists i :: 0 <= i < |results| && HasEmployeeId(results[i]) && DecodeEntry(results[i]).None?
  {
    KeptIsFilter(results);
    var kept, idx := Kept(results), KeptIndices(results);
    if ExtractUsers(results).None? {
      var k :| 0 <= k < |kept| && DecodeEntry(kept[k]).None?;
      assert results[idx[k]] == kept[k];
    } else {
      forall i | 0 <= i < |results| && HasEmployeeId(results[i])
        ensures DecodeEntry(results[i]).Some?
      {
        assert i in idx;
        var k :| 0 <= k < |idx| && idx[k] == i;
        assert kept[k] == results[i];
      }
    }
  }

  /**
   * A successful extraction has one user per entry with an employee id, in
   * result order: user k comes from result `KeptIndices(results)[k]`, carries
   * its first `employeeID` value and its first `sAMAccountName` value, or `""`
   * when the entry has no `sAMAccountName`.
   */
  lemma ExtractedUsers(results: seq<Entry>)
    requires ExtractUsers(results).Some?
    ensures var users, idx := ExtractUsers(results).value, KeptIndices(results);
      && |users| == |idx| <= |results|
      && StrictlyIncreasing(idx)
      && (forall i :: 0 <= i < |results| ==> (HasEmployeeId(results[i]) <==> i in idx))
      && forall k :: 0 <= k < |users| ==>
           && idx[k] < |results|
           && var attrs := results[idx[k]].attributes;
           && EMPLOYEE_ID in attrs && |attrs[EMPLOYEE_ID]| > 0
           && attrs[EMPLOYEE_ID][0] == Utf8(users[k].employeeId)
           && (ACCOUNT_NAME in attrs ==> |attrs[ACCOUNT_NAME]| > 0 && attrs[ACCOUNT_NAME][0] == Utf8(users[k].samAccountName))
           && (ACCOUNT_NAME !in attrs ==> users[k].samAccountName == "")
  {
    KeptIsFilter(results);
    var users, idx, kept := ExtractUsers(results).value, KeptIndices(results), Kept(results);
    forall k | 0 <= k < |users|
      ensures DecodeEntry(results[idx[k]]) == Some(users[k])
    {
      assert kept[k] == results[idx[k]];
    }
  }

  /** An entry with an employee id whose `sAMAccountName` is present but empty makes the whole extraction fail. */
  lemma EmptyAccountNameFails(results: seq<Entry>, i: nat)
    requires i < |results| && HasEmployeeId(results[i])
    requires ACCOUNT_NAME in results[i].attributes && results[i].attributes[ACCOUNT_NAME] == []
    ensures ExtractUsers(results) == None
    ensures DirectoryUsers(Searched(results, true)) == []
  {
    ExtractAllOrNothing(results);
  }

  /** Whatever the directory did, the users returned are all of a successful extraction or none at all. */
  lemma DirectoryUsersAllOrNothing(reply: DirectoryReply)
    ensures var succeeded := && reply.Searched? && reply.unbindOk
      && forall i :: 0 <= i < |reply.results| && HasEmployeeId(reply.results[i]) ==> DecodeEntry(reply.results[i]).Some?;
      && (succeeded ==> ExtractUsers(reply.results).Some? && DirectoryUsers(reply) == ExtractUsers(reply.results).value)
      && (!succeeded ==> DirectoryUsers(reply) == [])
  {
    if reply.Searched? {
      ExtractAllOrNothing(reply.results);
    }
  }

  /** Extraction of results extended by one entry extends the extraction of the prefix. */
  lemma ExtractSnoc(prefix: seq<Entry>, e: Entry)
    ensures ExtractUsers(prefix + [e]) ==
      if !HasEmployeeId(e) then ExtractUsers(prefix)
      else if ExtractUsers(prefix).Some? && DecodeEntry(e).Some? then Some(ExtractUsers(prefix).value + [DecodeEntry(e).value])
      else None
  {
    var results := prefix + [e];
    assert results[..|results| - 1] == prefix;
    var kept := Kept(prefix);
    if HasEmployeeId(e) {
      assert Kept(results) == kept + [e];
      if ExtractUsers(prefix).Some? && DecodeEntry(e).Some? {
        assert ExtractUsers(results).value == ExtractUsers(prefix).value + [DecodeEntry(e).value];
      } else if ExtractUsers(prefix).None? {
        var k :| 0 <= k < |kept| && DecodeEntry(kept[k]).None?;
        assert Kept(results)[k] == kept[k];
      } else {
        assert Kept(results)[|kept|] == e;
      }
    } else {
      assert Kept(results) == kept;
    }
  }

  /**
   * `get_active_directory_users`: walks the search results, skipping entries
   * without an employee id and appending the decoded pair of every other one;
   * any failure (bind, search, decode, an empty `sAMAccountName`, unbind)
   * yields `[]`.
   */
  method GetActiveDirectoryUsers(reply: DirectoryReply) returns (users: seq<User>)
    ensures users == DirectoryUsers(reply)
  {
    if !reply.Searched? {
      return [];
    }
    var results := reply.results;
    users := [];
    var i := 0;
    assert results[..i] == [];
    assert ExtractUsers([]).value == [];
    while i < |results|
      invariant 0 <= i <= |results|
      invariant ExtractUsers(results[..i]) == Some(users)
    {
      var e := results[i];
      ExtractSnoc(results[..i], e);
      assert results[..i + 1] == results[..i] + [e];
      if EMPLOYEE_ID in e.attributes && |e.attributes[EMPLOYEE_ID]| > 0 {
        var id := e.attributes[EMPLOYEE_ID][0];
        var names := if ACCOUNT_NAME in e.attributes then e.attributes[ACCOUNT_NAME] else [Utf8("")];
        if id.NotUtf8? || |names| == 0 || names[0].NotUtf8? {
          ExtractAllOrNothing(results);
          return [];
        }
        users := users + [User(id.text, names[0].text)];
      }
      i := i + 1;
    }
    assert results[..i] == results;
    if !reply.unbindOk {
      return [];
    }
  }
}
