/**
 * `main`: the mode dispatch and the report. `--test` runs the two
 * connectivity checks and stops; otherwise the credential step comes first,
 * then the directory query, then (for a non-empty user list) the
 * `adusers.csv` listing when `--adusers` is set, else the alias report when
 * `--aliases` is set.
 *
 * Everything the job reads from outside (environment, directory, Google) is
 * one `World` value; everything it leaves behind is one `Outcome` value.
 */
module EmailAliases {
  import opened Wrappers
  import ActiveDirectory
  import GoogleAliases
  import Credentials

  /** The three command-line switches. */
  datatype Flags = Flags(test: bool, adusers: bool, aliases: bool)

  /** The inputs of one run. */
  datatype World = World(
    outputFilePath: Option<string>,              // OUTPUT_FILE_PATH, if set
    ldapReachable: bool,                         // test_ldap_connection: bind and unbind succeed
    storedCredentials: Option<Credentials.Credential>, // the credential file (None: missing or unreadable)
    refresh: Credentials.RefreshReply,
    save: Credentials.SaveReply,
    googleProbeOk: bool,                         // the alias-list call of test_google_connection
    directory: ActiveDirectory.DirectoryReply,
    lookup: string -> GoogleAliases.AliasReply)  // the alias-list call, per user key

  type Row = seq<string>

  /** A CSV file written by the run: its path and its rows. */
  datatype Report = Report(path: string, rows: seq<Row>)

  /** The results of the two connectivity checks (they are only logged). */
  datatype Checks = Checks(directoryOk: bool, googleOk: bool)

  /** What one run leaves behind. */
  datatype Outcome = Outcome(
    checks: Option<Checks>,
    credentialFile: Option<Credentials.Credential>,
    credentialsRewritten: bool,
    directoryQueried: bool,
    report: Option<Report>)

  const DEFAULT_OUTPUT_FILE_PATH := "user_aliases.csv"
  const AD_USERS_PATH := "adusers.csv"
  const DOMAIN_SUFFIX := "@nyu.edu"
  const ALIAS_HEADER: Row := ["sAMAccountName", "Email Aliases"]

  function OutputFilePath(world: World): (path: string)
    ensures world.outputFilePath.None? ==> path == "user_aliases.csv"
    ensures world.outputFilePath.Some? ==> path == world.outputFilePath.value
  {
    world.outputFilePath.GetOr(DEFAULT_OUTPUT_FILE_PATH)
  }

  /** The Google user key of an employee. */
  function UserKey(employeeId: string): (key: string)
    ensures |key| == |employeeId| + |DOMAIN_SUFFIX|
    ensures forall i :: 0 <= i < |employeeId| ==> key[i] == employeeId[i]
    ensures forall i :: 0 <= i < |DOMAIN_SUFFIX| ==> key[|employeeId| + i] == DOMAIN_SUFFIX[i]
  {
    employeeId + DOMAIN_SUFFIX
  }

  /** One `adusers.csv` row per user, in order, and no header. */
  function AdUserRows(users: seq<ActiveDirectory.User>): (rows: seq<Row>)
    ensures |rows| == |users|
    ensures forall k :: 0 <= k < |users| ==> rows[k] == [users[k].employeeId, users[k].samAccountName]
  {
    seq(|users|, k requires 0 <= k < |users| => [users[k].employeeId, users[k].samAccountName])
  }

  function AliasRow(user: ActiveDirectory.User, lookup: string -> GoogleAliases.AliasReply): (row: Row)
    ensures |row| == 2 && row[0] == user.samAccountName
    ensures row[1] == GoogleAliases.RenderAliases(lookup(UserKey(user.employeeId)))
  {
    [user.samAccountName, GoogleAliases.RenderAliases(lookup(UserKey(user.employeeId)))]
  }

  /** The alias report: the header, then one row per user, in order. */
  function AliasRows(users: seq<ActiveDirectory.User>, lookup: string -> GoogleAliases.AliasReply): (rows: seq<Row>)
    ensures |rows| == |users| + 1 && rows[0] == ["sAMAccountName", "Email Aliases"]
    ensures forall k :: 0 <= k < |users| ==> rows[k + 1] == AliasRow(users[k], lookup)
  {
    [ALIAS_HEADER] + seq(|users|, k requires 0 <= k < |users| => AliasRow(users[k], lookup))
  }

  /** What a run with these switches does in this world. */
  function Expected(flags: Flags, world: World): (o: Outcome)
    ensures o.checks.Some? <==> flags.test
    ensures o.directoryQueried ==> !flags.test
    ensures o.report.Some? ==> o.directoryQueried && (flags.adusers || flags.aliases)
    ensures o.report.Some? ==> |o.report.value.rows| >= |ActiveDirectory.DirectoryUsers(world.directory)| > 0
  {
    var step := Credentials.CredentialStep(world.storedCredentials, world.refresh, world.save);
    if flags.test then
      Outcome(Some(Checks(world.ldapReachable, step.creds.Some? && world.googleProbeOk)),
              step.file, step.rewritten, false, None)
    else if step.creds.None? then
      Outcome(None, step.file, step.rewritten, false, None)
    else
      var users := ActiveDirectory.DirectoryUsers(world.directory);
      var report :=
        if users == [] then None
        else if flags.adusers then Some(Report(AD_USERS_PATH, AdUserRows(users)))
        else if flags.aliases then Some(Report(OutputFilePath(world), AliasRows(users, world.lookup)))
        else None;
      Outcome(None, step.file, step.rewritten, true, report)
  }

  /** A CSV file being written: rows are only ever appended. */
  class CsvFile {
    const path: string
    var rows: seq<Row>

    constructor (path: string)
      ensures this.path == path && rows == []
    {
      this.path := path;
      rows := [];
    }

    /** `writer.writerow(row)`. */
    method WriteRow(row: Row)
      modifies this
      ensures rows == old(rows) + [row]
    {
      rows := rows + [row];
    }
  }

  /** The `--adusers` loop of `main`: one `[employee id, account name]` row per user. */
  method WriteAdUsers(csv: CsvFile, users: seq<ActiveDirectory.User>)
    requires csv.rows == []
    modifies csv
    ensures csv.rows == AdUserRows(users)
  {
    for i := 0 to |users|
      invariant |csv.rows| == i
      invariant forall k :: 0 <= k < i ==> csv.rows[k] == [users[k].employeeId, users[k].samAccountName]
    {
      csv.WriteRow([users[i].employeeId, users[i].samAccountName]);
    }
  }

  /** The `--aliases` part of `main`: the header, then per user a lookup of its key and a row with the rendered aliases. */
  method WriteAliases(csv: CsvFile, users: seq<ActiveDirectory.User>, lookup: string -> GoogleAliases.AliasReply)
    requires csv.rows == []
    modifies csv
    ensures csv.rows == AliasRows(users, lookup)
  {
    csv.WriteRow(ALIAS_HEADER);
    for i := 0 to |users|
      invariant |csv.rows| == i + 1 && csv.rows[0] == ALIAS_HEADER
      invariant forall k :: 0 <= k < i ==> csv.rows[k + 1] == AliasRow(users[k], lookup)
    {
      var userId := UserKey(users[i].employeeId);
      var aliases := GoogleAliases.RenderAliases(lookup(userId));
      assert [users[i].samAccountName, aliases] == AliasRow(users[i], lookup);
      csv.WriteRow([users[i].samAccountName, aliases]);
    }
    AliasRowsByIndex(csv.rows, users, lookup);
  }

  /** A header followed by one alias row per user, in order, is exactly `AliasRows`. */
  lemma AliasRowsByIndex(rows: seq<Row>, users: seq<ActiveDirectory.User>, lookup: string -> GoogleAliases.AliasReply)
    requires |rows| == |users| + 1 && rows[0] == ALIAS_HEADER
    requires forall k :: 0 <= k < |users| ==> rows[k + 1] == AliasRow(users[k], lookup)
    ensures rows == AliasRows(users, lookup)
  {
    var expected := AliasRows(users, lookup);
    forall k | 0 <= k < |rows| ensures rows[k] == expected[k] {
      if k > 0 { assert rows[(k - 1) + 1] == expected[(k - 1) + 1]; }
    }
  }

  /** `main`. */
  method Run(flags: Flags, world: World) returns (outcome: Outcome)
    ensures outcome == Expected(flags, world)
  {
    var file := new Credentials.CredentialFile(world.storedCredentials);
    if flags.test {
      var directoryOk := world.ldapReachable;
      var googleOk := Credentials.TestGoogleConnection(file, world.refresh, world.save, world.googleProbeOk);
      return Outcome(Some(Checks(directoryOk, googleOk)), file.contents, file.rewritten, false, None);
    }
    var creds := Credentials.Authorize(file, world.refresh, world.save);
    var credentialFile, rewritten := file.contents, file.rewritten;
    if creds == null {
      return Outcome(None, credentialFile, rewritten, false, None);
    }
    var users := ActiveDirectory.GetActiveDirectoryUsers(world.directory);
    if users == [] {
      return Outcome(None, credentialFile, rewritten, true, None);
    }
    if flags.adusers {
      var csv := new CsvFile(AD_USERS_PATH);
      WriteAdUsers(csv, users);
      return Outcome(None, credentialFile, rewritten, true, Some(Report(csv.path, csv.rows)));
    }
    if flags.aliases {
      var csv := new CsvFile(OutputFilePath(world));
      WriteAliases(csv, users, world.lookup);
      return Outcome(None, credentialFile, rewritten, true, Some(Report(csv.path, csv.rows)));
    }
    return Outcome(None, credentialFile, rewritten, true, None);
  }

  /** `--test` runs both checks, reports each, and never reaches the directory query or a report. */
  lemma TestModeOnlyChecks(flags: Flags, world: World)
    requires flags.test
    ensures var o := Expected(flags, world);
      && o.report.None? && !o.directoryQueried
      && o.checks == Some(Checks(world.ldapReachable,
           Credentials.CredentialStep(world.storedCredentials, world.refresh, world.save).creds.Some? && world.googleProbeOk))
  {
  }

  /** Outside `--test`, the directory is queried exactly when the credential step succeeded, whichever export is asked for. */
  lemma CredentialsBeforeDirectory(flags: Flags, world: World)
    requires !flags.test
    ensures var step := Credentials.CredentialStep(world.storedCredentials, world.refresh, world.save);
      var o := Expected(flags, world);
      && (o.directoryQueried <==> step.creds.Some?)
      && (step.creds.None? ==> o.report.None?)
      && o.credentialFile == step.file && o.credentialsRewritten == step.rewritten
  {
  }

  /**
   * A search that succeeds, decodes and finds users always leads to a report
   * under an export switch, with at least one row per user.
   */
  lemma SuccessfulSearchIsReported(flags: Flags, world: World, results: seq<ActiveDirectory.Entry>)
    requires !flags.test && (flags.adusers || flags.aliases)
    requires Credentials.CredentialStep(world.storedCredentials, world.refresh, world.save).creds.Some?
    requires world.directory == ActiveDirectory.Searched(results, true)
    requires ActiveDirectory.ExtractUsers(results).Some? && ActiveDirectory.ExtractUsers(results).value != []
    ensures var report := Expected(flags, world).report;
      report.Some? && |report.value.rows| >= |ActiveDirectory.ExtractUsers(results).value|
  {
  }

  /** No users, no file. */
  lemma EmptyDirectoryWritesNothing(flags: Flags, world: World)
    requires ActiveDirectory.DirectoryUsers(world.directory) == []
    ensures Expected(flags, world).report.None?
  {
  }

  /** With neither export switch, nothing is written. */
  lemma NoExportSwitchWritesNothing(flags: Flags, world: World)
    requires !flags.adusers && !flags.aliases
    ensures Expected(flags, world).report.None?
  {
  }

  /**
   * `--adusers` (with or without `--aliases`) writes `adusers.csv`: exactly
   * one `[employee id, account name]` row per user, in order, no header.
   */
  lemma AdUsersReport(flags: Flags, world: World)
    requires !flags.test && flags.adusers
    requires Credentials.CredentialStep(world.storedCredentials, world.refresh, world.save).creds.Some?
    requires ActiveDirectory.DirectoryUsers(world.directory) != []
    ensures var users := ActiveDirectory.DirectoryUsers(world.directory);
      var report := Expected(flags, world).report;
      && report.Some? && report.value.path == AD_USERS_PATH
      && |report.value.rows| == |users|
      && forall k :: 0 <= k < |users| ==> report.value.rows[k] == [users[k].employeeId, users[k].samAccountName]
  {
  }

  /** The `adusers.csv` listing does not depend on Google's alias lookups at all. */
  lemma AdUsersIgnoresLookups(flags: Flags, world: World, other: string -> GoogleAliases.AliasReply)
    requires flags.adusers
    ensures Expected(flags, world) == Expected(flags, world.(lookup := other))
  {
  }

  /**
   * `--aliases` alone writes the output file: the header, then exactly one
   * `[account name, rendered aliases of employee id + "@nyu.edu"]` row per
   * user, in order.
   */
  lemma AliasReport(flags: Flags, world: World)
    requires !flags.test && !flags.adusers && flags.aliases
    requires Credentials.CredentialStep(world.storedCredentials, world.refresh, world.save).creds.Some?
    requires ActiveDirectory.DirectoryUsers(world.directory) != []
    ensures var users := ActiveDirectory.DirectoryUsers(world.directory);
      var report := Expected(flags, world).report;
      && report.Some? && report.value.path == OutputFilePath(world)
      && |report.value.rows| == |users| + 1
      && report.value.rows[0] == ["sAMAccountName", "Email Aliases"]
      && forall k :: 0 <= k < |users| ==>
           report.value.rows[k + 1] == [users[k].samAccountName,
                                        GoogleAliases.RenderAliases(world.lookup(users[k].employeeId + "@nyu.edu"))]
  {
  }

  /** A user whose lookup fails gets the same row as one with no aliases: the account name and `""`. */
  lemma FailedLookupRow(user: ActiveDirectory.User, lookup: string -> GoogleAliases.AliasReply)
    requires lookup(UserKey(user.employeeId)).HttpError? || lookup(UserKey(user.employeeId)).UnexpectedError?
    ensures AliasRow(user, lookup) == [user.samAccountName, ""]
  {
  }

  /** A user with two aliases gets one row after the header: the account name and the two aliases joined by a space. */
  lemma TwoAliasReport(user: ActiveDirectory.User, lookup: string -> GoogleAliases.AliasReply, first: string, second: string)
    requires lookup(UserKey(user.employeeId)) ==
      GoogleAliases.Listed(Some([map[GoogleAliases.ALIAS_FIELD := first], map[GoogleAliases.ALIAS_FIELD := second]]))
    ensures AliasRows([user], lookup) == [ALIAS_HEADER, [user.samAccountName, first + " " + second]]
  {
    GoogleAliases.TwoAliasesExample(first, second);
    var row := AliasRow(user, lookup);
    assert row == [user.samAccountName, first + " " + second];
    var rows := AliasRows([user], lookup);
    assert rows == [rows[0], rows[1]];
  }

  /** The `jdoe` example: two aliases become one space-separated cell. */
  lemma JDoeExample(lookup: string -> GoogleAliases.AliasReply)
    requires lookup("12345@nyu.edu") ==
      GoogleAliases.Listed(Some([map["alias" := "jdoe@alt.org"], map["alias" := "john.doe@alt.org"]]))
    ensures AliasRows([ActiveDirectory.User("12345", "jdoe")], lookup) ==
      [["sAMAccountName", "Email Aliases"], ["jdoe", "jdoe@alt.org john.doe@alt.org"]]
  {
    assert UserKey("12345") == "12345@nyu.edu";
    TwoAliasReport(ActiveDirectory.User("12345", "jdoe"), lookup, "jdoe@alt.org", "john.doe@alt.org");
    assert "jdoe@alt.org" + " " + "john.doe@alt.org" == "jdoe@alt.org john.doe@alt.org";
  }
}
