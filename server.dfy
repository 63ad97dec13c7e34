/**
 * The HTTP API's entry handlers: the scope names the web UI uses, and what
 * listing, reading, adding, removing and editing an entry, and toggling the
 * Windows 11 menu style, do through the registry manager. A body arrives as
 * a decoded JSON object; an absent key is `None`.
 */
module Server {
  import opened Results
  import opened Config
  import opened WinReg
  import opened RegistryManager

  // ---------------------------------------------------------------------------
  // Scope names
  // ---------------------------------------------------------------------------

  /** `_SCOPE_FROM_STR` */
  function ScopeFromStr(s: string): Option<TargetScope> {
    if s == "all_files" then Some(AllFiles)
    else if s == "directory" then Some(Directory)
    else if s == "dir_background" then Some(DirBackground)
    else if s == "extension" then Some(Extension)
    else None
  }

  /** `_SCOPE_TO_STR`, the inverse of `_SCOPE_FROM_STR` */
  function ScopeToStr(scope: TargetScope): string {
    match scope
    case AllFiles => "all_files"
    case Directory => "directory"
    case DirBackground => "dir_background"
    case Extension => "extension"
  }

  /** The two maps are inverse to each other. */
  lemma ScopeStrRoundTrip(scope: TargetScope, s: string)
    ensures ScopeFromStr(ScopeToStr(scope)) == Some(scope)
    ensures ScopeFromStr(s).Some? ==> ScopeToStr(ScopeFromStr(s).value) == s
  {
  }

  function ScopeNames(scopes: seq<TargetScope>): seq<string> {
    seq(|scopes|, i requires 0 <= i < |scopes| => ScopeToStr(scopes[i]))
  }

  datatype ApiError =
    | NotFound                      // answered with 404
    | UnknownScope(name: string)    // KeyError from `_SCOPE_FROM_STR`
    | MissingField(field: string)   // KeyError from a required body key
    | InvalidEntry(reason: ConfigError)
    | Refused(cause: Error)         // raised by the registry manager
    | NoCommand                     // AttributeError: the entry has no command subkey
    | BlankCommand                  // IndexError: the command is whitespace only

  /** The HTTP status of an error reply; success replies are 200. */
  function StatusCode(err: ApiError): int {
    if err == NotFound then 404 else 400
  }

  datatype Outcome = Ok | Err(error: ApiError)

  function OutcomeOf(status: Status): Outcome {
    match status
    case Done => Ok
    case Failed(e) => Err(Refused(e))
  }

  /** `[_SCOPE_FROM_STR[s] for s in names]`: the first unknown name raises. */
  function ParseScopes(names: seq<string>): (r: Result<seq<TargetScope>, ApiError>)
    ensures r.Success? <==> forall i :: 0 <= i < |names| ==> ScopeFromStr(names[i]).Some?
    ensures r.Success? ==> |r.value| == |names| && forall i :: 0 <= i < |names| ==> ScopeFromStr(names[i]) == Some(r.value[i])
    ensures r.Failure? ==> exists k :: 0 <= k < |names| && ScopeFromStr(names[k]).None? && r.error == UnknownScope(names[k])
                                     && forall i :: 0 <= i < k ==> ScopeFromStr(names[i]).Some?
  {
    if names == [] then Success([])
    else
      match ScopeFromStr(names[0])
      case None => Failure(UnknownScope(names[0]))
      case Some(s) =>
        match ParseScopes(names[1..])
        case Failure(err) => Failure(err)
        case Success(rest) => Success([s] + rest)
  }

  /** Naming scopes and parsing the names back gives the scopes. */
  lemma ParseScopeNames(scopes: seq<TargetScope>)
    ensures ParseScopes(ScopeNames(scopes)) == Success(scopes)
  {
    var r := ParseScopes(ScopeNames(scopes));
    forall i | 0 <= i < |scopes|
      ensures ScopeFromStr(ScopeNames(scopes)[i]) == Some(scopes[i])
    {
      ScopeStrRoundTrip(scopes[i], "");
    }
    assert r.Success?;
    assert forall i :: 0 <= i < |scopes| ==> r.value[i] == scopes[i];
    assert r.value == scopes;
  }

  // ---------------------------------------------------------------------------
  // Where a key is registered
  // ---------------------------------------------------------------------------

  /** The scopes the handlers probe, in this order. */
  const ListedScopes: seq<TargetScope> := [AllFiles, Directory, DirBackground]

  /** `key in list_entries(scope)` */
  predicate Listed(st: Store, scope: TargetScope, key: string) {
    StaticRoot(scope).Some? && key in Children(st, StaticRoot(scope).value)
  }

  /** The scopes of `ss` under which `key` is listed, in order. */
  function PresentIn(st: Store, key: string, ss: seq<TargetScope>): (r: seq<TargetScope>)
    ensures forall s :: s in r ==> Listed(st, s, key)
    ensures Extension !in r
    decreases |ss|
  {
    if ss == [] then []
    else PresentIn(st, key, ss[..|ss| - 1]) + (if Listed(st, ss[|ss| - 1], key) then [ss[|ss| - 1]] else [])
  }

  /** The static scopes a key is registered under. */
  function Presence(st: Store, key: string): seq<TargetScope> {
    PresentIn(st, key, ListedScopes)
  }

  function ScopeIndex(scope: TargetScope): nat {
    match scope
    case AllFiles => 0
    case Directory => 1
    case DirBackground => 2
    case Extension => 3
  }

  function Only(b: bool, scope: TargetScope): seq<TargetScope> {
    if b then [scope] else []
  }

  lemma PresenceExplicit(st: Store, key: string)
    ensures Presence(st, key) ==
      Only(Listed(st, AllFiles, key), AllFiles) + Only(Listed(st, Directory, key), Directory)
      + Only(Listed(st, DirBackground, key), DirBackground)
  {
    var l3 := ListedScopes;
    var l2, l1, l0 := [AllFiles, Directory], [AllFiles], [];
    assert l3[..2] == l2 && l2[..1] == l1 && l1[..0] == l0;
    assert PresentIn(st, key, l1) == PresentIn(st, key, l0) + Only(Listed(st, AllFiles, key), AllFiles);
    assert PresentIn(st, key, l2) == PresentIn(st, key, l1) + Only(Listed(st, Directory, key), Directory);
    assert PresentIn(st, key, l3) == PresentIn(st, key, l2) + Only(Listed(st, DirBackground, key), DirBackground);
  }

  /** A key's presence lists exactly the static scopes it is listed under, each once, in probing order. */
  lemma PresenceSpec(st: Store, key: string)
    ensures forall s :: s in Presence(st, key) <==> s != Extension && Listed(st, s, key)
    ensures forall i, j :: 0 <= i < j < |Presence(st, key)| ==> ScopeIndex(Presence(st, key)[i]) < ScopeIndex(Presence(st, key)[j])
  {
    PresenceExplicit(st, key);
    OnlyInOrder(Listed(st, AllFiles, key), Listed(st, Directory, key), Listed(st, DirBackground, key));
    forall s ensures s in Presence(st, key) <==> s != Extension && Listed(st, s, key) {
      match s
      case AllFiles =>
      case Directory =>
      case DirBackground =>
      case Extension =>
    }
  }

  /** The scopes picked out of the probing order by three flags: each picked one, in order. */
  lemma OnlyInOrder(a: bool, b: bool, c: bool)
    ensures var o := Only(a, AllFiles) + Only(b, Directory) + Only(c, DirBackground);
      && (forall s :: s in o <==> (s == AllFiles && a) || (s == Directory && b) || (s == DirBackground && c))
      && (forall i, j :: 0 <= i < j < |o| ==> ScopeIndex(o[i]) < ScopeIndex(o[j]))
  {
  }

  /** The first scope a key is listed under (EXTENSION when there is none). */
  function FirstListed(st: Store, key: string): TargetScope {
    var p := Presence(st, key);
    if p == [] then Extension else p[0]
  }

  function FirstIndex(st: Store, key: string): nat {
    ScopeIndex(FirstListed(st, key))
  }

  lemma FirstIndexFacts(st: Store, key: string, si: nat)
    requires si < |ListedScopes|
    ensures Listed(st, ListedScopes[si], key) ==> FirstIndex(st, key) <= si
    ensures FirstIndex(st, key) == si ==> Listed(st, ListedScopes[si], key) && FirstListed(st, key) == ListedScopes[si]
    ensures FirstIndex(st, key) < 3 <==> Presence(st, key) != []
  {
    PresenceExplicit(st, key);
  }

  /** The details of the first scope of `ss` that has them. */
  function FirstDetails(st: Store, key: string, ss: seq<TargetScope>): Option<Details>
    decreases |ss|
  {
    if ss == [] then None
    else if ReadEntryDetails(st, ss[0], key).Some? then ReadEntryDetails(st, ss[0], key)
    else FirstDetails(st, key, ss[1..])
  }

  lemma {:induction false} FirstDetailsSnoc(st: Store, key: string, ss: seq<TargetScope>, s: TargetScope)
    ensures FirstDetails(st, key, ss + [s]) == if FirstDetails(st, key, ss).Some? then FirstDetails(st, key, ss) else ReadEntryDetails(st, s, key)
    decreases |ss|
  {
    if ss == [] {
      assert [s][1..] == [];
    } else {
      assert (ss + [s])[1..] == ss[1..] + [s];
      FirstDetailsSnoc(st, key, ss[1..], s);
    }
  }

  /** Details exist only where the key is listed. */
  lemma DetailsImplyListed(st: Store, scope: TargetScope, key: string)
    requires ReadEntryDetails(st, scope, key).Some?
    ensures scope != Extension && Listed(st, scope, key)
  {
    ChildIff(st, StaticRoot(scope).value, key);
  }

  /**
   * Reading details over the scopes a key is listed under finds what reading
   * them over all static scopes finds: edit and get see the same entry.
   */
  lemma FirstDetailsOfPresence(st: Store, key: string)
    ensures FirstDetails(st, key, Presence(st, key)) == FirstDetails(st, key, ListedScopes)
  {
    PresenceExplicit(st, key);
    var l := ListedScopes;
    assert l[1..] == [Directory, DirBackground] && l[1..][1..] == [DirBackground] && l[1..][1..][1..] == [];
    forall s | s in l && ReadEntryDetails(st, s, key).Some?
      ensures Listed(st, s, key)
    {
      DetailsImplyListed(st, s, key);
    }
    var p1 := Only(Listed(st, AllFiles, key), AllFiles);
    var p2 := Only(Listed(st, Directory, key), Directory);
    var p3 := Only(Listed(st, DirBackground, key), DirBackground);
    assert Presence(st, key) == p1 + p2 + p3;
    FirstDetailsSnoc(st, key, [], AllFiles);
    FirstDetailsSnoc(st, key, p1, Directory);
    FirstDetailsSnoc(st, key, p1 + p2, DirBackground);
    assert FirstDetails(st, key, []) == None;
    assert FirstDetails(st, key, p1) == if p1 == [] then None else ReadEntryDetails(st, AllFiles, key) by {
      if p1 != [] { assert p1 == [] + [AllFiles]; }
    }
    assert FirstDetails(st, key, p1 + p2) == if p2 == [] then FirstDetails(st, key, p1)
      else if FirstDetails(st, key, p1).Some? then FirstDetails(st, key, p1) else ReadEntryDetails(st, Directory, key);
    assert FirstDetails(st, key, p1 + p2 + p3) == if p3 == [] then FirstDetails(st, key, p1 + p2)
      else if FirstDetails(st, key, p1 + p2).Some? then FirstDetails(st, key, p1 + p2) else ReadEntryDetails(st, DirBackground, key);
  }

  // ---------------------------------------------------------------------------
  // Records the API returns
  // ---------------------------------------------------------------------------

  /** The JSON object describing one entry. */
  datatype Record = Record(keyName: string, displayName: string, icon: Option<string>, command: Option<string>, scopes: seq<string>)

  /** A record from optional details: without them the display name is the key name. */
  function RecordOf(key: string, details: Option<Details>, scopes: seq<TargetScope>): Record {
    match details
    case Some(d) => Record(key, d.displayName, d.icon, d.command, ScopeNames(scopes))
    case None => Record(key, key, None, None, ScopeNames(scopes))
  }

  /** The record the list handler builds for a key: details of the first scope it is listed under. */
  function ListedRecord(st: Store, key: string): Record {
    RecordOf(key, ReadEntryDetails(st, FirstListed(st, key), key), Presence(st, key))
  }

  predicate HasKey(records: seq<Record>, key: string) {
    exists i :: 0 <= i < |records| && records[i].keyName == key
  }

  lemma HasKeySnoc(records: seq<Record>, r: Record)
    ensures forall k :: HasKey(records + [r], k) <==> HasKey(records, k) || r.keyName == k
  {
    forall k | HasKey(records + [r], k)
      ensures HasKey(records, k) || r.keyName == k
    {
      var i :| 0 <= i < |records + [r]| && (records + [r])[i].keyName == k;
      if i < |records| {
        assert records[i].keyName == k;
      }
    }
    forall k | HasKey(records, k)
      ensures HasKey(records + [r], k)
    {
      var i :| 0 <= i < |records| && records[i].keyName == k;
      assert (records + [r])[i].keyName == k;
    }
    assert (records + [r])[|records|] == r;
  }

  predicate KeysDistinct(records: seq<Record>) {
    forall i, j :: 0 <= i < j < |records| ==> records[i].keyName != records[j].keyName
  }

  /** Appending the record of a key first listed under scope `si` keeps the list handler's invariants. */
  lemma AppendRecord(st: Store, records: seq<Record>, key: string, si: nat)
    requires KeysDistinct(records) && !HasKey(records, key) && FirstIndex(st, key) == si
    requires forall i :: 0 <= i < |records| ==> records[i] == ListedRecord(st, records[i].keyName)
    requires forall i :: 0 <= i < |records| ==> FirstIndex(st, records[i].keyName) <= si
    requires forall i, j :: 0 <= i < j < |records| ==> FirstIndex(st, records[i].keyName) <= FirstIndex(st, records[j].keyName)
    ensures var r := records + [ListedRecord(st, key)];
      && KeysDistinct(r)
      && (forall k :: HasKey(r, k) <==> HasKey(records, k) || k == key)
      && (forall i :: 0 <= i < |r| ==> r[i] == ListedRecord(st, r[i].keyName))
      && (forall i :: 0 <= i < |r| ==> FirstIndex(st, r[i].keyName) <= si)
      && (forall i, j :: 0 <= i < j < |r| ==> FirstIndex(st, r[i].keyName) <= FirstIndex(st, r[j].keyName))
  {
    var r := records + [ListedRecord(st, key)];
    HasKeySnoc(records, ListedRecord(st, key));
    forall i | 0 <= i < |records|
      ensures r[i] == records[i] && r[i].keyName != key
    {
    }
  }

  /** An entry the manager has just added under ALL_FILES is listed with what was written. */
  lemma ListedAfterAdd(st: Store, e: MenuEntry)
    requires AllFiles in e.scopes && IsNormalized(e)
    ensures var w := Written(st, Targets(e.scopes, e.extensions), e, e.icon);
      && Presence(w, e.keyName) != [] && Presence(w, e.keyName)[0] == AllFiles
      && ListedRecord(w, e.keyName).displayName == e.displayName
      && ListedRecord(w, e.keyName).command == Some(CommandFor(e, "%1"))
      && (Truthy(e.icon) ==> ListedRecord(w, e.keyName).icon == e.icon)
  {
    var w := Written(st, Targets(e.scopes, e.extensions), e, e.icon);
    ReadAfterWrite(st, e, e.icon, AllFiles);
    DetailsImplyListed(w, AllFiles, e.keyName);
    PresenceExplicit(w, e.keyName);
  }

  // ---------------------------------------------------------------------------
  // Request bodies
  // ---------------------------------------------------------------------------

  /** The body of POST /api/entries. */
  datatype AddBody = AddBody(
    keyName: Option<string>,
    displayName: Option<string>,
    exePath: Option<string>,
    icon: Option<string>,
    scopes: Option<seq<string>>,
    extensions: Option<seq<string>>,
    commandTemplate: Option<string>)

  /**
   * The entry the add handler constructs: the scope names are mapped first,
   * then the required keys are read in the order key_name, display_name,
   * exe_path, then the entry is constructed.
   */
  function EntryFromBody(b: AddBody): (r: Result<MenuEntry, ApiError>)
    ensures r.Success? ==> IsNormalized(r.value)
    ensures r.Success? ==> b.keyName == Some(r.value.keyName) && b.displayName == Some(r.value.displayName)
    ensures r.Success? ==> r.value.commandTemplate == b.commandTemplate.GetOr(DefaultTemplate)
    ensures r.Success? ==> ParseScopes(b.scopes.GetOr(["all_files"])) == Success(r.value.scopes)
    ensures ParseScopes(b.scopes.GetOr(["all_files"])).Failure? ==> r == Failure(ParseScopes(b.scopes.GetOr(["all_files"])).error)
    ensures r.Failure? && ParseScopes(b.scopes.GetOr(["all_files"])).Success? ==>
      if b.keyName.None? then r.error == MissingField("key_name")
      else if b.displayName.None? then r.error == MissingField("display_name")
      else if b.exePath.None? then r.error == MissingField("exe_path")
      else r.error.InvalidEntry?
  {
    match ParseScopes(b.scopes.GetOr(["all_files"]))
    case Failure(err) => Failure(err)
    case Success(scopes) =>
      if b.keyName.None? then Failure(MissingField("key_name"))
      else if b.displayName.None? then Failure(MissingField("display_name"))
      else if b.exePath.None? then Failure(MissingField("exe_path"))
      else
        var raw := MenuEntry(b.keyName.value, b.displayName.value, b.exePath.value,
                             b.commandTemplate.GetOr(DefaultTemplate), b.icon, scopes, b.extensions.GetOr([]));
        match NewMenuEntry(raw)
        case Failure(err) => Failure(InvalidEntry(err))
        case Success(e) => Success(e)
  }

  /** The body the web UI sends for an entry. */
  function BodyOf(e: MenuEntry): AddBody {
    AddBody(Some(e.keyName), Some(e.displayName), Some(e.exePath), e.icon,
            Some(ScopeNames(e.scopes)), Some(e.extensions), Some(e.commandTemplate))
  }

  /** Sending a constructed entry to the add handler reconstructs exactly that entry. */
  lemma EntryFromBodyOf(e: MenuEntry)
    requires IsNormalized(e)
    ensures EntryFromBody(BodyOf(e)) == Success(e)
  {
    ParseScopeNames(e.scopes);
    NewMenuEntryIdempotent(e);
  }

  /** The body of PUT /api/entries/<key>; `icon` is `Some(None)` when the body holds JSON null. */
  datatype EditBody = EditBody(
    displayName: Option<string>,
    exePath: Option<string>,
    icon: Option<Option<string>>,
    scopes: Option<seq<string>>,
    extensions: Option<seq<string>>)

  /** The placeholder executable of the entries built only to be removed. */
  const DummyExe: string := "C:\\dummy.exe"

  /** Python's `str.isspace` for one character. */
  predicate IsSpace(c: char) {
    || ('\t' <= c <= '\r') || ('\U{001C}' <= c <= ' ') || c == '\U{0085}' || c == '\U{00A0}'
    || c == '\U{1680}' || ('\U{2000}' <= c <= '\U{200A}') || c == '\U{2028}' || c == '\U{2029}'
    || c == '\U{202F}' || c == '\U{205F}' || c == '\U{3000}'
  }

  /** The number of leading whitespace characters. */
  function SpaceRun(s: string): (n: nat)
    ensures n <= |s| && (forall i :: 0 <= i < n ==> IsSpace(s[i])) && (n < |s| ==> !IsSpace(s[n]))
  {
    if s == [] || !IsSpace(s[0]) then 0 else 1 + SpaceRun(s[1..])
  }

  /** The number of leading non-whitespace characters. */
  function WordRun(s: string): (n: nat)
    ensures n <= |s| && (forall i :: 0 <= i < n ==> !IsSpace(s[i])) && (n < |s| ==> IsSpace(s[n]))
  {
    if s == [] || IsSpace(s[0]) then 0 else 1 + WordRun(s[1..])
  }

  /**
   * The executable the edit handler reads off a stored command: the text
   * between the first two quotes when the command starts with a quote, the
   * first whitespace-separated word otherwise, "" for an empty command, and
   * nothing (an IndexError) for a command of whitespace only.
   */
  function CommandExe(cmd: string): (r: Option<string>)
    ensures r.None? <==> cmd != "" && cmd[0] != '"' && forall i :: 0 <= i < |cmd| ==> IsSpace(cmd[i])
    ensures r.Some? && cmd != "" && cmd[0] == '"' ==>
      1 + |r.value| <= |cmd| && r.value == cmd[1..1 + |r.value|] && (1 + |r.value| < |cmd| ==> cmd[1 + |r.value|] == '"')
      && forall i :: 0 <= i < |r.value| ==> r.value[i] != '"'
    ensures r.Some? && cmd != "" && cmd[0] != '"' ==>
      var k := SpaceRun(cmd);
      && r.value != "" && k + |r.value| <= |cmd| && r.value == cmd[k..k + |r.value|]
      && (forall i :: 0 <= i < |r.value| ==> !IsSpace(r.value[i]))
      && (k + |r.value| < |cmd| ==> IsSpace(cmd[k + |r.value|]))
  {
    if cmd == "" then Some("")
    else if cmd[0] == '"' then Some(Before(cmd[1..], '"'))
    else
      var k := SpaceRun(cmd);
      if k == |cmd| then None else Some(cmd[k..k + WordRun(cmd[k..])])
  }

  /** The executable of a command rendered from the default template is read back intact. */
  lemma CommandExeOfDefault(exe: string, target: string)
    requires forall i :: 0 <= i < |exe| ==> exe[i] != '"'
    ensures CommandExe("\"" + exe + "\" \"" + target + "\"") == Some(exe)
  {
    var cmd := "\"" + exe + "\" \"" + target + "\"";
    var rest := "\" \"" + target + "\"";
    assert cmd[1..] == exe + rest;
    BeforeConcat(exe, rest, '"');
  }

  /** So editing an entry written with the default template keeps its executable. */
  lemma CommandExeOfEntry(e: MenuEntry, placeholder: string)
    requires IsNormalized(e) && e.commandTemplate == DefaultTemplate
    requires forall i :: 0 <= i < |e.exePath| ==> e.exePath[i] != '"'
    ensures CommandExe(CommandFor(e, placeholder)) == Some(e.exePath)
  {
    BuildCommandDefault(e, placeholder);
    CommandExeOfDefault(e.exePath, placeholder);
  }

  /** The entry the handlers construct only to remove a key from the given scopes. */
  function RemovalEntry(key: string, displayName: string, exePath: string, scopes: seq<TargetScope>): (e: MenuEntry)
    requires Extension !in scopes
    ensures e.keyName == key && e.scopes == scopes && e.extensions == [] && IsNormalized(e)
  {
    NewMenuEntry(Defaults(key, displayName, exePath).(scopes := scopes)).value
  }

  /** What the edit handler settles before it changes anything: the entry to remove and the one to add. */
  datatype EditPlan = EditPlan(previous: MenuEntry, next: Result<MenuEntry, ApiError>)

  /**
   * The edit handler after it has found the scopes and the details: the
   * command's executable, the entry to remove, and the entry to add, which
   * keeps the stored display name, icon and executable unless the body
   * overrides them and always takes the default template.
   */
  function PlanFrom(key: string, current: seq<TargetScope>, details: Details, body: EditBody): (r: Result<EditPlan, ApiError>)
    requires Extension !in current
    ensures details.command.None? ==> r == Failure(NoCommand)
    ensures r.Failure? ==> r.error == NoCommand || r.error == BlankCommand
    ensures r.Success? ==> var p := r.value;
      && p.previous.keyName == key && p.previous.scopes == current && p.previous.extensions == []
      && (p.next.Success? ==> p.next.value.keyName == key && p.next.value.commandTemplate == DefaultTemplate && IsNormalized(p.next.value))
      && (p.next.Success? ==> p.next.value.displayName == body.displayName.GetOr(details.displayName))
  {
    match details.command
    case None => Failure(NoCommand)
    case Some(cmd) =>
      match CommandExe(cmd)
      case None => Failure(BlankCommand)
      case Some(exe) =>
        var previous := RemovalEntry(key, details.displayName, if exe == "" then DummyExe else exe, current);
        Success(EditPlan(previous, NextEntry(key, details, exe, body)))
  }

  /**
   * The entry the edit handler adds: the body's scopes and extensions, the
   * stored display name, icon and executable unless the body overrides
   * them, and always the default template.
   */
  function NextEntry(key: string, details: Details, exe: string, body: EditBody): (r: Result<MenuEntry, ApiError>)
    ensures r.Success? ==> r.value.keyName == key && r.value.commandTemplate == DefaultTemplate && IsNormalized(r.value)
    ensures r.Success? ==> r.value.displayName == body.displayName.GetOr(details.displayName)
    ensures r.Success? ==> SlashesReplaced(body.exePath.GetOr(exe), r.value.exePath)
    ensures r.Failure? ==> r.error.UnknownScope? || r.error.InvalidEntry?
  {
    match ParseScopes(body.scopes.GetOr([]))
    case Failure(err) => Failure(err)
    case Success(scopes) =>
      var raw := MenuEntry(key, body.displayName.GetOr(details.displayName), body.exePath.GetOr(exe),
                           DefaultTemplate, body.icon.GetOr(details.icon), scopes, body.extensions.GetOr([]));
      match NewMenuEntry(raw)
      case Failure(err) => Failure(InvalidEntry(err))
      case Success(e) => Success(e)
  }

  /** The whole decision of the edit handler on a given registry. */
  function PlanEdit(st: Store, key: string, body: EditBody): Result<EditPlan, ApiError> {
    var current := Presence(st, key);
    match FirstDetails(st, key, current)
    case None => Failure(NotFound)
    case Some(d) => if current == [] then Failure(NotFound) else PlanFrom(key, current, d, body)
  }

  /** Removing a key from all scopes it is listed under leaves it listed nowhere. */
  lemma RemovalClears(st: Store, key: string)
    ensures var erased := EraseAll(st, Targets(Presence(st, key), []), key);
      erased.status == Done ==> Presence(erased.store, key) == []
  {
    var p := Presence(st, key);
    PresenceSpec(st, key);
    var ts := Targets(p, []);
    var erased := EraseAll(st, ts, key);
    if erased.status == Done {
      EraseAllFrame(st, ts, key);
      NotListedAfter(st, key, erased.store, AllFiles);
      NotListedAfter(st, key, erased.store, Directory);
      NotListedAfter(st, key, erased.store, DirBackground);
      PresenceExplicit(erased.store, key);
    }
  }

  lemma NotListedAfter(st: Store, key: string, after: Store, s: TargetScope)
    requires s != Extension
    requires after.keys == st.keys - ErasedPaths(Targets(Presence(st, key), []), key)
    ensures !Listed(after, s, key)
  {
    var p := Presence(st, key);
    var ts := Targets(p, []);
    PresenceSpec(st, key);
    var root := StaticRoot(s).value;
    ChildIff(after, root, key);
    ChildIff(st, root, key);
    if s in p {
      TargetsMembers(p, [], Target(root, Placeholder(s)));
      ErasedPathsHas(ts, key, Target(root, Placeholder(s)));
    }
  }

  lemma {:induction false} ErasedPathsHas(ts: seq<Target>, key: string, t: Target)
    requires t in ts
    ensures KeyPath(t.root, key) in ErasedPaths(ts, key)
    decreases |ts|
  {
    if ts[|ts| - 1] != t {
      var i :| 0 <= i < |ts| && ts[i] == t;
      assert ts[..|ts| - 1][i] == t;
      ErasedPathsHas(ts[..|ts| - 1], key, t);
    }
  }

  /** The removal half of an edit clears the key from every static scope. */
  lemma EditRemovalClears(st: Store, key: string, body: EditBody, host: Host)
    requires PlanEdit(st, key, body).Success?
    ensures var removed := RemoveStep(st, PlanEdit(st, key, body).value.previous, host, false);
      removed.status == Done ==> Presence(removed.store, key) == []
  {
    var current := Presence(st, key);
    var d := FirstDetails(st, key, current).value;
    assert PlanEdit(st, key, body) == PlanFrom(key, current, d, body);
    RemovalClears(st, key);
  }

  /** Writing the fan-out of an entry whose key is listed nowhere lists it under exactly the entry's static scopes. */
  lemma ListedExactlyAfterWrite(st: Store, e: MenuEntry, s: TargetScope)
    requires Presence(st, e.keyName) == [] && IsNormalized(e)
    ensures s in Presence(Written(st, Targets(e.scopes, e.extensions), e, e.icon), e.keyName) <==> s != Extension && s in e.scopes
  {
    var w := Written(st, Targets(e.scopes, e.extensions), e, e.icon);
    PresenceSpec(w, e.keyName);
    if s != Extension {
      PresenceSpec(st, e.keyName);
      assert !Listed(st, s, e.keyName);
      WrittenListed(st, e, e.icon, s);
      ChildIff(st, StaticRoot(s).value, e.keyName);
      ChildIff(w, StaticRoot(s).value, e.keyName);
    }
  }

  /** Adding an entry whose key is listed nowhere lists it under exactly the entry's static scopes. */
  lemma ListedExactlyAfterAdd(st: Store, e: MenuEntry, host: Host)
    requires Presence(st, e.keyName) == [] && IsNormalized(e)
    ensures var added := AddStep(st, e, host, false);
      added.status == Done ==> forall s :: s in Presence(added.store, e.keyName) <==> s != Extension && s in e.scopes
  {
    var added := AddStep(st, e, host, false);
    if added.status == Done {
      assert added.store == Written(st, Targets(e.scopes, e.extensions), e, e.icon);
      forall s
        ensures s in Presence(added.store, e.keyName) <==> s != Extension && s in e.scopes
      {
        ListedExactlyAfterWrite(st, e, s);
      }
    }
  }

  /**
   * A live edit that succeeds leaves the key listed under exactly the static
   * scopes of the body: the removal clears every scope it was listed under,
   * and the add lists it under the new ones and nowhere else.
   */
  lemma EditListsExactly(st: Store, key: string, body: EditBody, host: Host)
    requires PlanEdit(st, key, body).Success? && PlanEdit(st, key, body).value.next.Success?
    ensures var plan := PlanEdit(st, key, body).value;
      var removed := RemoveStep(st, plan.previous, host, false);
      var added := AddStep(removed.store, plan.next.value, host, false);
      removed.status == Done && added.status == Done ==>
        forall s :: s in Presence(added.store, key) <==> s != Extension && s in plan.next.value.scopes
  {
    var plan := PlanEdit(st, key, body).value;
    var removed := RemoveStep(st, plan.previous, host, false);
    if removed.status == Done {
      EditRemovalClears(st, key, body, host);
      EditNextKey(st, key, body);
      ListedExactlyAfterAdd(removed.store, plan.next.value, host);
    }
  }

  /** The entry an edit adds keeps the key and is a constructed entry. */
  lemma EditNextKey(st: Store, key: string, body: EditBody)
    requires PlanEdit(st, key, body).Success? && PlanEdit(st, key, body).value.next.Success?
    ensures PlanEdit(st, key, body).value.next.value.keyName == key
    ensures IsNormalized(PlanEdit(st, key, body).value.next.value)
  {
    var current := Presence(st, key);
    var d := FirstDetails(st, key, current).value;
    assert PlanEdit(st, key, body) == PlanFrom(key, current, d, body);
  }

  /** Whether the toggle handler forces the classic menu (otherwise it restores the modern one). */
  function ForceWanted(action: string, st: Store): bool {
    action == "enable" || (action != "disable" && !IsClassicMenuForced(st))
  }

  // ---------------------------------------------------------------------------
  // The handlers
  // ---------------------------------------------------------------------------

  class Api {
    const manager: Manager

    constructor (manager: Manager)
      ensures this.manager == manager
    {
      this.manager := manager;
    }

    /** The loop `for s in (ALL_FILES, DIRECTORY, DIR_BACKGROUND): if key_name in list_entries(s)`. */
    method PresentScopes(key: string) returns (scopes: seq<TargetScope>)
      ensures scopes == Presence(manager.reg.State(), key)
    {
      scopes := [];
      var i := 0;
      while i < |ListedScopes|
        invariant 0 <= i <= |ListedScopes|
        invariant scopes == PresentIn(manager.reg.State(), key, ListedScopes[..i])
      {
        var names := manager.ListEntries(ListedScopes[i], None);
        assert ListedScopes[..i + 1][..i] == ListedScopes[..i];
        if key in names.value {
          scopes := scopes + [ListedScopes[i]];
        }
        i := i + 1;
      }
      assert ListedScopes[..|ListedScopes|] == ListedScopes;
    }

    /** One key of the list handler's inner loop: a record is added the first time the key is met. */
    method Consider(si: nat, list: seq<string>, j: nat, records: seq<Record>, seen: set<string>) returns (records': seq<Record>, seen': set<string>)
      requires si < |ListedScopes| && j < |list| && Distinct(list)
      requires forall k :: k in list <==> k in Children(manager.reg.State(), StaticRoot(ListedScopes[si]).value)
      requires forall k :: k in seen <==> HasKey(records, k)
      requires forall k :: k in seen <==> FirstIndex(manager.reg.State(), k) < si || (FirstIndex(manager.reg.State(), k) == si && k in list[..j])
      requires KeysDistinct(records)
      requires forall i :: 0 <= i < |records| ==> records[i] == ListedRecord(manager.reg.State(), records[i].keyName)
      requires forall i :: 0 <= i < |records| ==> FirstIndex(manager.reg.State(), records[i].keyName) <= si
      requires forall i, j :: 0 <= i < j < |records| ==>
        FirstIndex(manager.reg.State(), records[i].keyName) <= FirstIndex(manager.reg.State(), records[j].keyName)
      ensures forall k :: k in seen' <==> HasKey(records', k)
      ensures forall k :: k in seen' <==> FirstIndex(manager.reg.State(), k) < si || (FirstIndex(manager.reg.State(), k) == si && k in list[..j + 1])
      ensures KeysDistinct(records')
      ensures forall i :: 0 <= i < |records'| ==> records'[i] == ListedRecord(manager.reg.State(), records'[i].keyName)
      ensures forall i :: 0 <= i < |records'| ==> FirstIndex(manager.reg.State(), records'[i].keyName) <= si
      ensures forall i, j :: 0 <= i < j < |records'| ==>
        FirstIndex(manager.reg.State(), records'[i].keyName) <= FirstIndex(manager.reg.State(), records'[j].keyName)
    {
      ghost var st := manager.reg.State();
      var key := list[j];
      FirstIndexFacts(st, key, si);
      assert list[..j + 1] == list[..j] + [key];
      records', seen' := records, seen;
      if key !in seen {
        var scopes := PresentScopes(key);
        var details := ReadEntryDetails(manager.reg.State(), ListedScopes[si], key);
        var record := RecordOf(key, details, scopes);
        assert record == ListedRecord(st, key);
        AppendRecord(st, records, key, si);
        records' := records + [record];
        seen' := seen + {key};
      }
    }

    /**
     * The records contributed by one scope of the list handler: every key
     * listed there and not seen under an earlier scope.
     */
    method CollectScope(si: nat, records: seq<Record>, seen: set<string>) returns (records': seq<Record>, seen': set<string>)
      requires si < |ListedScopes|
      requires forall k :: k in seen <==> HasKey(records, k)
      requires forall k :: k in seen <==> FirstIndex(manager.reg.State(), k) < si
      requires KeysDistinct(records)
      requires forall i :: 0 <= i < |records| ==> records[i] == ListedRecord(manager.reg.State(), records[i].keyName)
      requires forall i :: 0 <= i < |records| ==> FirstIndex(manager.reg.State(), records[i].keyName) < si
      requires forall i, j :: 0 <= i < j < |records| ==>
        FirstIndex(manager.reg.State(), records[i].keyName) <= FirstIndex(manager.reg.State(), records[j].keyName)
      ensures forall k :: k in seen' <==> HasKey(records', k)
      ensures forall k :: k in seen' <==> FirstIndex(manager.reg.State(), k) <= si
      ensures KeysDistinct(records')
      ensures forall i :: 0 <= i < |records'| ==> records'[i] == ListedRecord(manager.reg.State(), records'[i].keyName)
      ensures forall i :: 0 <= i < |records'| ==> FirstIndex(manager.reg.State(), records'[i].keyName) <= si
      ensures forall i, j :: 0 <= i < j < |records'| ==>
        FirstIndex(manager.reg.State(), records'[i].keyName) <= FirstIndex(manager.reg.State(), records'[j].keyName)
    {
      ghost var st := manager.reg.State();
      var scope := ListedScopes[si];
      var names := manager.ListEntries(scope, None);
      var list := names.value;
      records', seen' := records, seen;
      var j := 0;
      while j < |list|
        invariant 0 <= j <= |list|
        invariant forall k :: k in seen' <==> HasKey(records', k)
        invariant forall k :: k in seen' <==> FirstIndex(st, k) < si || (FirstIndex(st, k) == si && k in list[..j])
        invariant KeysDistinct(records')
        invariant forall i :: 0 <= i < |records'| ==> records'[i] == ListedRecord(st, records'[i].keyName)
        invariant forall i :: 0 <= i < |records'| ==> FirstIndex(st, records'[i].keyName) <= si
        invariant forall i, j :: 0 <= i < j < |records'| ==> FirstIndex(st, records'[i].keyName) <= FirstIndex(st, records'[j].keyName)
      {
        records', seen' := Consider(si, list, j, records', seen');
        j := j + 1;
      }
      assert list[..|list|] == list;
      forall k | FirstIndex(st, k) == si
        ensures k in list
      {
        FirstIndexFacts(st, k, si);
      }
    }

    /**
     * GET /api/entries: one record per key listed under a static scope, each
     * once, grouped by the first scope the key is listed under.
     */
    method ListAll() returns (records: seq<Record>)
      ensures KeysDistinct(records)
      ensures forall k :: HasKey(records, k) <==> Presence(manager.reg.State(), k) != []
      ensures forall i :: 0 <= i < |records| ==> records[i] == ListedRecord(manager.reg.State(), records[i].keyName)
      ensures forall i, j :: 0 <= i < j < |records| ==>
        FirstIndex(manager.reg.State(), records[i].keyName) <= FirstIndex(manager.reg.State(), records[j].keyName)
    {
      ghost var st := manager.reg.State();
      records := [];
      var seen: set<string> := {};
      var si := 0;
      while si < |ListedScopes|
        invariant 0 <= si <= |ListedScopes|
        invariant forall k :: k in seen <==> HasKey(records, k)
        invariant forall k :: k in seen <==> FirstIndex(st, k) < si
        invariant KeysDistinct(records)
        invariant forall i :: 0 <= i < |records| ==> records[i] == ListedRecord(st, records[i].keyName)
        invariant forall i :: 0 <= i < |records| ==> FirstIndex(st, records[i].keyName) < si
        invariant forall i, j :: 0 <= i < j < |records| ==> FirstIndex(st, records[i].keyName) <= FirstIndex(st, records[j].keyName)
      {
        records, seen := CollectScope(si, records, seen);
        si := si + 1;
      }
      forall k
        ensures HasKey(records, k) <==> Presence(st, k) != []
      {
        FirstIndexFacts(st, k, 0);
      }
    }

    /** GET /api/entry/<key>: the details of the first static scope that has them, or 404. */
    method GetEntry(key: string) returns (r: Result<Record, ApiError>)
      ensures FirstDetails(manager.reg.State(), key, ListedScopes).None? ==> r == Failure(NotFound)
      ensures FirstDetails(manager.reg.State(), key, ListedScopes).Some? ==>
        r == Success(RecordOf(key, FirstDetails(manager.reg.State(), key, ListedScopes), Presence(manager.reg.State(), key)))
    {
      ghost var st := manager.reg.State();
      var i := 0;
      while i < |ListedScopes|
        invariant 0 <= i <= |ListedScopes|
        invariant FirstDetails(st, key, ListedScopes) == FirstDetails(st, key, ListedScopes[i..])
      {
        var details := ReadEntryDetails(manager.reg.State(), ListedScopes[i], key);
        assert ListedScopes[i..][1..] == ListedScopes[i + 1..];
        if details.Some? {
          var scopes := PresentScopes(key);
          return Success(RecordOf(key, details, scopes));
        }
        i := i + 1;
      }
      r := Failure(NotFound);
    }

    /** POST /api/entries */
    method AddEntry(body: AddBody, host: Host) returns (r: Outcome)
      modifies manager.reg, manager`planned
      ensures Valid(old(manager.reg.State())) ==> Valid(manager.reg.State())
      ensures EntryFromBody(body).Failure? ==>
        r == Err(EntryFromBody(body).error) && manager.reg.State() == old(manager.reg.State()) && manager.planned == old(manager.planned)
      ensures EntryFromBody(body).Success? ==>
        var step := AddStep(old(manager.reg.State()), EntryFromBody(body).value, host, manager.dryRun);
        && r == OutcomeOf(step.status) && manager.reg.State() == step.store
        && manager.planned == old(manager.planned) + AddLog(EntryFromBody(body).value, host, manager.dryRun)
    {
      var entry := EntryFromBody(body);
      if entry.Failure? {
        return Err(entry.error);
      }
      var status := manager.AddEntry(entry.value, host);
      r := OutcomeOf(status);
    }

    /** DELETE /api/entries/<key>: 404 unless the key is listed somewhere, then remove it from those scopes. */
    method RemoveEntry(key: string, host: Host) returns (r: Outcome)
      modifies manager.reg, manager`planned
      ensures Valid(old(manager.reg.State())) ==> Valid(manager.reg.State())
      ensures Presence(old(manager.reg.State()), key) == [] ==>
        r == Err(NotFound) && manager.reg.State() == old(manager.reg.State()) && manager.planned == old(manager.planned)
      ensures Presence(old(manager.reg.State()), key) != [] ==>
        var e := RemovalEntry(key, "", DummyExe, Presence(old(manager.reg.State()), key));
        var step := RemoveStep(old(manager.reg.State()), e, host, manager.dryRun);
        && r == OutcomeOf(step.status) && manager.reg.State() == step.store
        && manager.planned == old(manager.planned) + RemoveLog(e, host, manager.dryRun)
    {
      var scopes := PresentScopes(key);
      if scopes == [] {
        return Err(NotFound);
      }
      var entry := RemovalEntry(key, "", DummyExe, scopes);
      var status := manager.RemoveEntry(entry, host);
      r := OutcomeOf(status);
    }

    /** The edit handler's scan: the scopes listing the key, and the details read from the first of them. */
    method LocateEntry(key: string) returns (current: seq<TargetScope>, details: Option<Details>)
      ensures current == Presence(manager.reg.State(), key)
      ensures details == FirstDetails(manager.reg.State(), key, current)
    {
      current := [];
      details := None;
      var i := 0;
      while i < |ListedScopes|
        invariant 0 <= i <= |ListedScopes|
        invariant current == PresentIn(manager.reg.State(), key, ListedScopes[..i])
        invariant details == FirstDetails(manager.reg.State(), key, current)
      {
        var names := manager.ListEntries(ListedScopes[i], None);
        assert ListedScopes[..i + 1][..i] == ListedScopes[..i];
        if key in names.value {
          FirstDetailsSnoc(manager.reg.State(), key, current, ListedScopes[i]);
          current := current + [ListedScopes[i]];
          if details.None? {
            details := ReadEntryDetails(manager.reg.State(), ListedScopes[i], key);
          }
        }
        i := i + 1;
      }
      assert ListedScopes[..|ListedScopes|] == ListedScopes;
    }

    /**
     * PUT /api/entries/<key>: remove the entry from the scopes it is listed
     * under, then add it with the scopes of the body. Nothing is rolled back
     * when the second half fails.
     */
    method EditEntry(key: string, body: EditBody, host: Host) returns (r: Outcome)
      modifies manager.reg, manager`planned
      ensures Valid(old(manager.reg.State())) ==> Valid(manager.reg.State())
      ensures PlanEdit(old(manager.reg.State()), key, body).Failure? ==>
        && r == Err(PlanEdit(old(manager.reg.State()), key, body).error)
        && manager.reg.State() == old(manager.reg.State()) && manager.planned == old(manager.planned)
      ensures PlanEdit(old(manager.reg.State()), key, body).Success? ==>
        var plan := PlanEdit(old(manager.reg.State()), key, body).value;
        var removed := RemoveStep(old(manager.reg.State()), plan.previous, host, manager.dryRun);
        var removeLog := old(manager.planned) + RemoveLog(plan.previous, host, manager.dryRun);
        if removed.status.Failed? then
          r == OutcomeOf(removed.status) && manager.reg.State() == removed.store && manager.planned == removeLog
        else if plan.next.Failure? then
          r == Err(plan.next.error) && manager.reg.State() == removed.store && manager.planned == removeLog
        else
          var added := AddStep(removed.store, plan.next.value, host, manager.dryRun);
          r == OutcomeOf(added.status) && manager.reg.State() == added.store
          && manager.planned == removeLog + AddLog(plan.next.value, host, manager.dryRun)
    {
      var current, details := LocateEntry(key);
      if current == [] || details.None? {
        return Err(NotFound);
      }
      var plan := PlanFrom(key, current, details.value, body);
      if plan.Failure? {
        return Err(plan.error);
      }
      var status := manager.RemoveEntry(plan.value.previous, host);
      if status.Failed? {
        return OutcomeOf(status);
      }
      if plan.value.next.Failure? {
        return Err(plan.value.next.error);
      }
      status := manager.AddEntry(plan.value.next.value, host);
      r := OutcomeOf(status);
    }

    /**
     * POST /api/win11-menu: "enable" forces the classic menu, "disable"
     * restores the modern one, anything else flips the current style; the
     * reply carries the style read afterwards.
     */
    method ToggleWin11(action: Option<string>) returns (r: Result<bool, ApiError>)
      modifies manager.reg, manager`planned
      ensures Valid(old(manager.reg.State())) ==> Valid(manager.reg.State())
      ensures var force := ForceWanted(action.GetOr("toggle"), old(manager.reg.State()));
        && (manager.dryRun ==>
              && manager.reg.State() == old(manager.reg.State())
              && manager.planned == old(manager.planned) + [if force then WouldForceClassic else WouldRestoreModern]
              && r == Success(IsClassicMenuForced(old(manager.reg.State()))))
        && (!manager.dryRun && force ==>
              manager.reg.State() == ForcedClassic(old(manager.reg.State())) && r == Success(true))
        && (!manager.dryRun && !force ==>
              if DeleteOutcomeOf(old(manager.reg.State()), MarkerPath) == HasSubkeys
              then r == Failure(Refused(DeleteRefused(MarkerPath))) && manager.reg.State() == old(manager.reg.State())
              else r == Success(false) && manager.reg.State() == RestoredModern(old(manager.reg.State())))
        && (!manager.dryRun ==> manager.planned == old(manager.planned))
      ensures !manager.dryRun && action.None? && r.Success? ==> r.value == !IsClassicMenuForced(old(manager.reg.State()))
    {
      var a := action.GetOr("toggle");
      var force := a == "enable" || (a != "disable" && !IsClassicMenuForced(manager.reg.State()));
      if force {
        manager.ForceClassicMenu();
      } else {
        var status := manager.RestoreModernMenu();
        if status.Failed? {
          return Failure(Refused(status.error));
        }
      }
      r := Success(IsClassicMenuForced(manager.reg.State()));
    }
  }
}
