/**
 * The alias lookup of one user (`get_google_aliases`): the Directory API's
 * alias-list response becomes one space-separated line, and every failure
 * becomes the empty line.
 *
 * The service call is a library call; the model receives its result as an
 * `AliasReply`.
 */
module GoogleAliases {
  import opened Wrappers
  import Text

  /** One alias resource of the response, as its fields by name. */
  type AliasResource = map<string, string>

  /** What the alias-list call did: raised an HTTP error, raised some other error, or answered (with or without an `aliases` field). */
  datatype AliasReply =
    | HttpError
    | UnexpectedError
    | Listed(aliases: Option<seq<AliasResource>>)

  const ALIAS_FIELD := "alias"

  /** The `alias` field of every resource, in order; None when one of them lacks it (the comprehension raises). */
  function AliasAddresses(items: seq<AliasResource>): (r: Option<seq<string>>)
    ensures r.Some? <==> forall k :: 0 <= k < |items| ==> ALIAS_FIELD in items[k]
    ensures r.Some? ==> |r.value| == |items| && forall k :: 0 <= k < |items| ==> r.value[k] == items[k][ALIAS_FIELD]
  {
    if forall k | 0 <= k < |items| :: ALIAS_FIELD in items[k] then
      Some(seq(|items|, k requires 0 <= k < |items| => items[k][ALIAS_FIELD]))
    else None
  }

  /** The line written for one user: the addresses joined by single spaces, or `""` after any error. */
  function RenderAliases(reply: AliasReply): (line: string)
    ensures !reply.Listed? || reply.aliases.GetOr([]) == [] ==> line == ""
    ensures reply.Listed? && AliasAddresses(reply.aliases.GetOr([])).Some? ==>
      line == Text.Join(AliasAddresses(reply.aliases.GetOr([])).value)
  {
    match reply
    case Listed(items) =>
      (match AliasAddresses(items.GetOr([]))
       case Some(addresses) => if addresses == [] then "" else Text.Join(addresses)
       case None => "")
    case _ => ""
  }

  /** Every failure renders exactly as a response that lists no aliases: the two cannot be told apart. */
  lemma FailureLooksLikeNoAliases(reply: AliasReply)
    requires || reply.HttpError? || reply.UnexpectedError? || reply == Listed(None)
             || (reply.Listed? && reply.aliases.Some? && AliasAddresses(reply.aliases.value).None?)
    ensures RenderAliases(reply) == RenderAliases(Listed(Some([]))) == ""
  {
  }

  /**
   * The rendered line holds the aliases in response order: when every
   * resource has an `alias` field free of spaces and there is at least one,
   * splitting the line at spaces gives back exactly those addresses.
   */
  lemma RenderRoundTrip(items: seq<AliasResource>)
    requires |items| >= 1
    requires forall k :: 0 <= k < |items| ==> ALIAS_FIELD in items[k] && ' ' !in items[k][ALIAS_FIELD]
    ensures var fields := Text.Split(RenderAliases(Listed(Some(items))));
      |fields| == |items| && forall k :: 0 <= k < |items| ==> fields[k] == items[k][ALIAS_FIELD]
  {
    var addresses := AliasAddresses(items).value;
    Text.SplitJoin(addresses);
  }

  /** The line is empty exactly after a failure, for no aliases, or for a single empty alias. */
  lemma RenderEmptyIff(reply: AliasReply)
    ensures RenderAliases(reply) == "" <==>
      || !reply.Listed?
      || AliasAddresses(reply.aliases.GetOr([])).None?
      || AliasAddresses(reply.aliases.GetOr([])).value in {[], [""]}
  {
    if reply.Listed? && AliasAddresses(reply.aliases.GetOr([])).Some? {
      Text.JoinEmpty(AliasAddresses(reply.aliases.GetOr([])).value);
    }
  }

  /** Two aliases render as the first, one space, and the second. */
  lemma TwoAliasesExample(first: string, second: string)
    ensures RenderAliases(Listed(Some([map[ALIAS_FIELD := first], map[ALIAS_FIELD := second]])))
         == first + " " + second
  {
    var items := [map[ALIAS_FIELD := first], map[ALIAS_FIELD := second]];
    assert forall k | 0 <= k < |items| :: ALIAS_FIELD in items[k];
    var addresses := AliasAddresses(items).value;
    assert addresses == [first, second];
    assert Text.Join(addresses) == first + " " + Text.Join([second]);
  }
}
