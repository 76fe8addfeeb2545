/**
 * The Google credential step that both `main` and `test_google_connection`
 * run before any API call: load the authorised-user file, use the credential
 * as it is when valid, refresh it and write it back when it is expired but
 * refreshable, and give up otherwise or on any error.
 *
 * Parsing the file, the refresh exchange and the file write are library and
 * I/O calls; the model receives their results (`RefreshReply`, `SaveReply`).
 * `valid` and `expired` are properties the library derives from the token,
 * its expiry and the clock; they are stored flags here.
 */
module Credentials {
  import opened Wrappers

  /** The fields of a credential that the step looks at. */
  datatype Credential = Credential(token: string, valid: bool, expired: bool, refreshToken: string)

  /** The refresh exchange raised, or produced a new access token. */
  datatype RefreshReply = RefreshFailed | Refreshed(newToken: string)

  /** Rewriting the credential file: done, `open` raised (the file is untouched), or the write raised after `open` truncated it. */
  datatype SaveReply = Saved | OpenFailed | WriteFailed

  /** The credential after a successful refresh: the new token, valid and no longer expired. */
  function RefreshedWith(c: Credential, newToken: string): Credential {
    c.(token := newToken, valid := true, expired := false)
  }

  /** Invalid, expired, and holding a (non-empty) refresh token. */
  predicate Refreshable(c: Credential)
    ensures Refreshable(c) ==> !c.valid && c.expired && |c.refreshToken| > 0
    ensures !c.valid && c.expired && |c.refreshToken| > 0 ==> Refreshable(c)
  {
    !c.valid && c.expired && c.refreshToken != ""
  }

  /** The result of the step: the credential to proceed with (None: abort), what the file holds afterwards, and whether it was rewritten. */
  datatype Step = Step(creds: Option<Credential>, file: Option<Credential>, rewritten: bool)

  /** The step on a file whose contents load as `stored` (None: missing or unreadable). */
  function CredentialStep(stored: Option<Credential>, refresh: RefreshReply, save: SaveReply): (s: Step)
    ensures stored.None? ==> s.creds.None?
    ensures s.creds.Some? ==> stored.Some? && (s.creds == stored || s.rewritten)
    ensures s.rewritten ==> s.creds.Some? && s.file == s.creds && Refreshable(stored.value)
    ensures s.file != stored ==> stored.Some? && Refreshable(stored.value) && refresh.Refreshed? && (s.rewritten || save == WriteFailed)
  {
    match stored
    case None => Step(None, None, false)
    case Some(c) =>
      if c.valid then Step(stored, stored, false)
      else if !Refreshable(c) then Step(None, stored, false)
      else match refresh
        case RefreshFailed => Step(None, stored, false)
        case Refreshed(t) =>
          match save
          case Saved => Step(Some(RefreshedWith(c, t)), Some(RefreshedWith(c, t)), true)
          case OpenFailed => Step(None, stored, false)
          case WriteFailed => Step(None, None, false)
  }

  /**
   * The three outcomes: a valid credential is used unchanged and the file is
   * left alone; an expired refreshable one is used refreshed, after the file
   * was rewritten with it; in every other case the step aborts.
   */
  lemma StepOutcomes(stored: Option<Credential>, refresh: RefreshReply, save: SaveReply)
    ensures var s := CredentialStep(stored, refresh, save);
      && (stored.Some? && stored.value.valid ==> s == Step(stored, stored, false))
      && (s.creds.Some? <==>
            stored.Some? && (stored.value.valid || (Refreshable(stored.value) && refresh.Refreshed? && save.Saved?)))
      && (s.rewritten <==> s.creds.Some? && !stored.value.valid)
      && (s.rewritten ==> s.creds == Some(RefreshedWith(stored.value, refresh.newToken)))
  {
  }

  /** Whenever the step proceeds, the file holds exactly the credential in use: a refreshed token is never used unsaved. */
  lemma ProceedingCredentialIsStored(stored: Option<Credential>, refresh: RefreshReply, save: SaveReply)
    requires CredentialStep(stored, refresh, save).creds.Some?
    ensures CredentialStep(stored, refresh, save).file == CredentialStep(stored, refresh, save).creds
    ensures CredentialStep(stored, refresh, save).creds.value.valid
  {
  }

  /**
   * An aborted step does not rewrite the file and leaves it as it was, except
   * when the file was opened, after a successful refresh of a refreshable
   * credential, and the write then failed: that leaves it unreadable.
   */
  lemma AbortKeepsFile(stored: Option<Credential>, refresh: RefreshReply, save: SaveReply)
    requires CredentialStep(stored, refresh, save).creds.None?
    ensures var s := CredentialStep(stored, refresh, save);
      && !s.rewritten
      && (s.file == stored <==> !(stored.Some? && Refreshable(stored.value) && refresh.Refreshed? && save == WriteFailed))
      && (s.file != stored ==> s.file == None)
  {
  }

  /** The credential file: what it currently holds, and whether the job has rewritten it. */
  class CredentialFile {
    var contents: Option<Credential>
    var rewritten: bool

    constructor (contents: Option<Credential>)
      ensures this.contents == contents && !rewritten
    {
      this.contents := contents;
      rewritten := false;
    }

    /** `Credentials.from_authorized_user_file`: None when it raises. */
    method Load() returns (c: Option<Credential>)
      ensures c == contents
    {
      c := contents;
    }

    /** `open(path, 'w')` and `write(creds.to_json())`. */
    method Save(c: Credential, reply: SaveReply) returns (ok: bool)
      modifies this
      ensures ok == reply.Saved?
      ensures contents == match reply
        case Saved => Some(c)
        case OpenFailed => old(contents)
        case WriteFailed => None
      ensures rewritten == (old(rewritten) || ok)
    {
      ok := reply.Saved?;
      match reply
      case Saved => contents := Some(c); rewritten := true;
      case OpenFailed =>
      case WriteFailed => contents := None;
    }
  }

  /** The loaded credential object, which a refresh updates in place. */
  class GoogleCredentials {
    var token: string
    var valid: bool
    var expired: bool
    var refreshToken: string

    function State(): Credential
      reads this
    {
      Credential(token, valid, expired, refreshToken)
    }

    constructor FromAuthorizedUser(c: Credential)
      ensures State() == c
    {
      token, valid, expired, refreshToken := c.token, c.valid, c.expired, c.refreshToken;
    }

    /** `creds.refresh(Request())`: on success the credential takes the new token and becomes valid. */
    method Refresh(reply: RefreshReply) returns (ok: bool)
      modifies this
      ensures ok == reply.Refreshed?
      ensures State() == if ok then RefreshedWith(old(State()), reply.newToken) else old(State())
    {
      ok := reply.Refreshed?;
      if ok {
        token, valid, expired := reply.newToken, true, false;
      }
    }
  }

  /**
   * The credential block of `main` (and the first half of
   * `test_google_connection`): null means the run stops here.
   */
  method Authorize(file: CredentialFile, refresh: RefreshReply, save: SaveReply) returns (creds: GoogleCredentials?)
    modifies file
    ensures var s := CredentialStep(old(file.contents), refresh, save);
      && (creds != null <==> s.creds.Some?)
      && (creds != null ==> fresh(creds) && creds.State() == s.creds.value)
      && file.contents == s.file
      && file.rewritten == (old(file.rewritten) || s.rewritten)
  {
    var loaded := file.Load();
    if loaded.None? {
      return null;
    }
    creds := new GoogleCredentials.FromAuthorizedUser(loaded.value);
    if !creds.valid {
      if creds.expired && creds.refreshToken != "" {
        var refreshed := creds.Refresh(refresh);
        if !refreshed {
          return null;
        }
      } else {
        return null;
      }
      var saved := file.Save(creds.State(), save);
      if !saved {
        return null;
      }
    }
  }

  /**
   * `test_google_connection`: the credential step, then one alias-list call
   * whose success is `probeOk`; true exactly when both succeed, and it never
   * raises.
   */
  method TestGoogleConnection(file: CredentialFile, refresh: RefreshReply, save: SaveReply, probeOk: bool) returns (ok: bool)
    modifies file
    ensures var s := CredentialStep(old(file.contents), refresh, save);
      && ok == (s.creds.Some? && probeOk)
      && file.contents == s.file
      && file.rewritten == (old(file.rewritten) || s.rewritten)
  {
    var creds := Authorize(file, refresh, save);
    ok := creds != null && probeOk;
  }
}
