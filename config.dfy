/**
 * The entry model: where a context-menu item appears (TargetScope), what one
 * item is (MenuEntry), how construction normalises it, and how its command
 * string is rendered from a two-placeholder template.
 */
module Config {
  import opened Results

  /** Where in HKEY_CLASSES_ROOT an entry is registered. */
  datatype TargetScope = AllFiles | Directory | DirBackground | Extension

  /** One context-menu registration, as the dataclass holds it. */
  datatype MenuEntry = MenuEntry(
    keyName: string,
    displayName: string,
    exePath: string,
    commandTemplate: string,
    icon: Option<string>,
    scopes: seq<TargetScope>,
    extensions: seq<string>)

  /** The default command template: the quoted executable, then the quoted target. */
  const DefaultTemplate: string := "\"" + "{exe_path}" + "\" \"" + "{target}" + "\""

  /** The arguments of a construction that passes only the three required fields. */
  function Defaults(keyName: string, displayName: string, exePath: string): MenuEntry {
    MenuEntry(keyName, displayName, exePath, DefaultTemplate, None, [AllFiles], [])
  }

  /** The ValueError raised by construction. */
  datatype ConfigError = ExtensionsRequired(keyName: string)

  /** Python truthiness of an optional string: present and non-empty. */
  predicate Truthy(s: Option<string>) {
    s.Some? && s.value != ""
  }

  predicate NoForwardSlash(s: string) {
    forall i :: 0 <= i < |s| ==> s[i] != '/'
  }

  /** `r` is `s` with every '/' replaced by '\' and every other character kept. */
  predicate SlashesReplaced(s: string, r: string) {
    |r| == |s| && forall i :: 0 <= i < |s| ==> r[i] == (if s[i] == '/' then '\\' else s[i])
  }

  /** `s.replace("/", "\\")` */
  function ToBackslashes(s: string): (r: string)
    ensures SlashesReplaced(s, r)
    ensures NoForwardSlash(r)
  {
    if s == [] then []
    else [if s[0] == '/' then '\\' else s[0]] + ToBackslashes(s[1..])
  }

  predicate StartsWithDot(ext: string) {
    |ext| > 0 && ext[0] == '.'
  }

  function NormalizeExtension(ext: string): string {
    if StartsWithDot(ext) then ext else "." + ext
  }

  function NormalizeExtensions(exts: seq<string>): seq<string> {
    seq(|exts|, i requires 0 <= i < |exts| => NormalizeExtension(exts[i]))
  }

  /** The shape every constructed entry has. */
  predicate IsNormalized(e: MenuEntry) {
    && !(Extension in e.scopes && e.extensions == [])
    && NoForwardSlash(e.exePath)
    && (Truthy(e.icon) ==> NoForwardSlash(e.icon.value))
    && forall i :: 0 <= i < |e.extensions| ==> StartsWithDot(e.extensions[i])
  }

  /**
   * The dataclass constructor followed by `__post_init__`: rejects EXTENSION
   * without extensions, turns '/' into '\' in the executable and in a truthy
   * icon, and gives every extension a leading dot.
   */
  function NewMenuEntry(raw: MenuEntry): (r: Result<MenuEntry, ConfigError>)
    ensures r.Failure? <==> Extension in raw.scopes && raw.extensions == []
    ensures r.Failure? ==> r.error == ExtensionsRequired(raw.keyName)
    ensures r.Success? ==>
      && r.value.keyName == raw.keyName
      && r.value.displayName == raw.displayName
      && r.value.commandTemplate == raw.commandTemplate
      && r.value.scopes == raw.scopes
      && SlashesReplaced(raw.exePath, r.value.exePath)
      && (Truthy(raw.icon) ==> r.value.icon.Some? && SlashesReplaced(raw.icon.value, r.value.icon.value))
      && (!Truthy(raw.icon) ==> r.value.icon == raw.icon)
      && |r.value.extensions| == |raw.extensions|
      && (forall i :: 0 <= i < |raw.extensions| ==>
            r.value.extensions[i] == (if StartsWithDot(raw.extensions[i]) then raw.extensions[i] else "." + raw.extensions[i]))
      && IsNormalized(r.value)
  {
    if Extension in raw.scopes && raw.extensions == [] then
      Failure(ExtensionsRequired(raw.keyName))
    else
      Success(raw.(
        exePath := ToBackslashes(raw.exePath),
        icon := if Truthy(raw.icon) then Some(ToBackslashes(raw.icon.value)) else raw.icon,
        extensions := NormalizeExtensions(raw.extensions)))
  }

  lemma {:induction false} ToBackslashesKeeps(s: string)
    requires NoForwardSlash(s)
    ensures ToBackslashes(s) == s
  {
    if s != [] {
      ToBackslashesKeeps(s[1..]);
    }
  }

  /** Normalisation is idempotent: constructing an already constructed entry changes nothing. */
  lemma NewMenuEntryIdempotent(e: MenuEntry)
    requires IsNormalized(e)
    ensures NewMenuEntry(e) == Success(e)
  {
    ToBackslashesKeeps(e.exePath);
    if Truthy(e.icon) {
      ToBackslashesKeeps(e.icon.value);
    }
    assert NormalizeExtensions(e.extensions) == e.extensions;
  }

  /** Omitted arguments take the dataclass defaults and construction then succeeds. */
  lemma DefaultsConstruct(keyName: string, displayName: string, exePath: string)
    ensures NewMenuEntry(Defaults(keyName, displayName, exePath)).Success?
    ensures var e := NewMenuEntry(Defaults(keyName, displayName, exePath)).value;
      e.scopes == [AllFiles] && e.extensions == [] && e.icon == None && e.commandTemplate == DefaultTemplate
      && e.exePath == ToBackslashes(exePath)
  {
    assert NormalizeExtensions([]) == [];
  }

  // ---------------------------------------------------------------------------
  // The `str.format` subset that command templates use
  // ---------------------------------------------------------------------------

  /** Why `str.format` raises for a template. */
  datatype FormatError =
    | UnknownField(name: string)    // KeyError / IndexError: a field other than exe_path or target
    | UnclosedField                 // ValueError: '{' without a closing '}'
    | SingleCloseBrace              // ValueError: a lone '}'

  /** The number of characters before the first '}' (all of them if there is none). */
  function FieldLength(s: string): (n: nat)
    ensures n <= |s|
    ensures n < |s| ==> s[n] == '}'
    ensures forall i :: 0 <= i < n ==> s[i] != '}'
  {
    if s == [] || s[0] == '}' then 0 else 1 + FieldLength(s[1..])
  }

  function FieldValue(name: string, exePath: string, target: string): Result<string, FormatError> {
    if name == "exe_path" then Success(exePath)
    else if name == "target" then Success(target)
    else Failure(UnknownField(name))
  }

  function Prepend(prefix: string, r: Result<string, FormatError>): Result<string, FormatError> {
    match r
    case Success(s) => Success(prefix + s)
    case Failure(e) => Failure(e)
  }

  /** `template.format(exe_path=exePath, target=target)` */
  function Format(template: string, exePath: string, target: string): Result<string, FormatError>
    decreases |template|, 1
  {
    if template == [] then Success([]) else FormatPiece(template, exePath, target)
  }

  /** The rendering of a non-empty template: its first literal character, escaped brace or field, then the rest. */
  function FormatPiece(template: string, exePath: string, target: string): Result<string, FormatError>
    requires template != []
    decreases |template|, 0
  {
    if template[0] == '{' then
      if |template| >= 2 && template[1] == '{' then
        Prepend("{", Format(template[2..], exePath, target))
      else
        var n := FieldLength(template[1..]);
        if n == |template| - 1 then Failure(UnclosedField)
        else
          match FieldValue(template[1..1 + n], exePath, target)
          case Failure(e) => Failure(e)
          case Success(v) => Prepend(v, Format(template[n + 2..], exePath, target))
    else if template[0] == '}' then
      if |template| >= 2 && template[1] == '}' then
        Prepend("}", Format(template[2..], exePath, target))
      else Failure(SingleCloseBrace)
    else
      Prepend([template[0]], Format(template[1..], exePath, target))
  }

  /** `build_command`: the template rendered with the slash-normalised executable. */
  function BuildCommand(e: MenuEntry, placeholder: string): Result<string, FormatError> {
    Format(e.commandTemplate, ToBackslashes(e.exePath), placeholder)
  }

  predicate NoBraces(s: string) {
    forall i :: 0 <= i < |s| ==> s[i] != '{' && s[i] != '}'
  }

  /** Text without braces is copied unchanged. */
  lemma {:induction false} FormatLiteral(a: string, rest: string, exePath: string, target: string)
    requires NoBraces(a)
    ensures Format(a + rest, exePath, target) == Prepend(a, Format(rest, exePath, target))
  {
    if a != [] {
      assert (a + rest)[1..] == a[1..] + rest;
      FormatLiteral(a[1..], rest, exePath, target);
      match Format(rest, exePath, target)
      case Success(s) => assert [a[0]] + (a[1..] + s) == a + s;
      case Failure(_) =>
    } else {
      assert a + rest == rest;
      match Format(rest, exePath, target)
      case Success(s) => assert a + s == s;
      case Failure(_) =>
    }
  }

  lemma {:induction false} FieldLengthAt(name: string, rest: string)
    requires forall i :: 0 <= i < |name| ==> name[i] != '}'
    ensures FieldLength(name + "}" + rest) == |name|
  {
    if name != [] {
      assert (name + "}" + rest)[1..] == name[1..] + "}" + rest;
      FieldLengthAt(name[1..], rest);
    }
  }

  /** A `{name}` field is replaced by the value of `name`. */
  lemma FormatField(name: string, rest: string, exePath: string, target: string)
    requires name == "exe_path" || name == "target"
    ensures Format("{" + name + "}" + rest, exePath, target)
         == Prepend(if name == "exe_path" then exePath else target, Format(rest, exePath, target))
  {
    var t := "{" + name + "}" + rest;
    assert t[1..] == name + "}" + rest;
    FieldLengthAt(name, rest);
    assert t[1..1 + |name|] == name;
    assert t[|name| + 2..] == rest;
  }

  /** The shape of the default template, with its pieces as variables. */
  lemma {:induction false} FormatTwoFields(q: string, mid: string, f1: string, f2: string, exePath: string, target: string)
    requires NoBraces(q) && NoBraces(mid) && f1 == "exe_path" && f2 == "target"
    ensures Format(q + ("{" + f1 + "}" + (mid + ("{" + f2 + "}" + q))), exePath, target)
         == Success(q + (exePath + (mid + (target + q))))
  {
    FormatLiteral(q, [], exePath, target);
    assert q + [] == q;
    FormatField(f2, q, exePath, target);
    FormatLiteral(mid, "{" + f2 + "}" + q, exePath, target);
    FormatField(f1, mid + ("{" + f2 + "}" + q), exePath, target);
    FormatLiteral(q, "{" + f1 + "}" + (mid + ("{" + f2 + "}" + q)), exePath, target);
  }

  lemma DefaultTemplatePieces(q: string, mid: string, f1: string, f2: string)
    requires q == "\"" && mid == "\" \"" && f1 == "exe_path" && f2 == "target"
    ensures DefaultTemplate == q + ("{" + f1 + "}" + (mid + ("{" + f2 + "}" + q)))
  {
    assert "{" + f1 + "}" == "{exe_path}";
    assert "{" + f2 + "}" == "{target}";
  }

  /** With the default template the command is `"exe" "target"`. */
  lemma FormatDefaultTemplate(exePath: string, target: string)
    ensures Format(DefaultTemplate, exePath, target) == Success("\"" + exePath + "\" \"" + target + "\"")
  {
    var q, mid, f1, f2 := "\"", "\" \"", "exe_path", "target";
    FormatTwoFields(q, mid, f1, f2, exePath, target);
    DefaultTemplatePieces(q, mid, f1, f2);
    assert q + (exePath + (mid + (target + q))) == "\"" + exePath + "\" \"" + target + "\"";
  }

  /**
   * Whether a template formats, and with which error, depends only on the
   * template: the substituted values never matter.
   */
  lemma {:induction false} FormatOutcomeIndependent(template: string, a: string, b: string, c: string, d: string)
    ensures Format(template, a, b).Success? == Format(template, c, d).Success?
    ensures Format(template, a, b).Failure? ==> Format(template, a, b) == Format(template, c, d)
    decreases |template|
  {
    if template == [] {
    } else if template[0] == '{' {
      if |template| >= 2 && template[1] == '{' {
        FormatOutcomeIndependent(template[2..], a, b, c, d);
      } else {
        var n := FieldLength(template[1..]);
        if n != |template| - 1 {
          FormatOutcomeIndependent(template[n + 2..], a, b, c, d);
        }
      }
    } else if template[0] == '}' {
      if |template| >= 2 && template[1] == '}' {
        FormatOutcomeIndependent(template[2..], a, b, c, d);
      }
    } else {
      FormatOutcomeIndependent(template[1..], a, b, c, d);
    }
  }

  /** On a constructed entry the slash replacement inside build_command changes nothing. */
  lemma BuildCommandOfNormalized(e: MenuEntry, placeholder: string)
    requires IsNormalized(e)
    ensures BuildCommand(e, placeholder) == Format(e.commandTemplate, e.exePath, placeholder)
  {
    ToBackslashesKeeps(e.exePath);
  }

  /** With the default template, build_command(p) is `"` + exe_path + `" "` + p + `"`. */
  lemma BuildCommandDefault(e: MenuEntry, placeholder: string)
    requires IsNormalized(e) && e.commandTemplate == DefaultTemplate
    ensures BuildCommand(e, placeholder) == Success("\"" + e.exePath + "\" \"" + placeholder + "\"")
  {
    BuildCommandOfNormalized(e, placeholder);
    FormatDefaultTemplate(e.exePath, placeholder);
  }
}
