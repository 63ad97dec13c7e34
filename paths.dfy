/**
 * Windows paths as the log handlers use them: the pure (lexical) path that
 * `Path(...) / name` builds and `str()` prints, and the location the file
 * system resolves it to, where `..` climbs one directory.
 */
module Paths {
  import opened Seqs

  /** A Windows pure path: a drive such as "C:", whether it has a root '\', and its parts. */
  datatype PurePath = PurePath(drive: string, root: bool, parts: seq<string>)

  predicate IsSep(c: char) {
    c == '\\' || c == '/'
  }

  predicate NoSep(s: string) {
    forall i :: 0 <= i < |s| ==> !IsSep(s[i])
  }

  /** `s` split at every separator (an empty string gives one empty segment). */
  function Segments(s: string): (r: seq<string>)
    ensures |r| > 0
  {
    if s == [] then [[]]
    else if IsSep(s[0]) then [[]] + Segments(s[1..])
    else
      var rest := Segments(s[1..]);
      [[s[0]] + rest[0]] + rest[1..]
  }

  /** No segment holds a separator. */
  lemma {:induction false} SegmentsNoSep(s: string)
    ensures forall i :: 0 <= i < |Segments(s)| ==> NoSep(Segments(s)[i])
  {
    if s != [] {
      SegmentsNoSep(s[1..]);
      if !IsSep(s[0]) {
        var rest := Segments(s[1..]);
        assert NoSep(rest[0]);
        assert NoSep([s[0]] + rest[0]) by {
          assert forall k :: 1 <= k < |[s[0]] + rest[0]| ==> ([s[0]] + rest[0])[k] == rest[0][k - 1];
        }
      }
    }
  }

  lemma {:induction false} SegmentsOfPlain(s: string)
    requires NoSep(s)
    ensures Segments(s) == [s]
  {
    if s != [] {
      assert !IsSep(s[0]);
      SegmentsOfPlain(s[1..]);
      assert [s[0]] + s[1..] == s;
    }
  }

  /** Splitting at a separator between two pieces splits each piece on its own. */
  lemma {:induction false} SegmentsConcat(a: string, sep: char, b: string)
    requires IsSep(sep)
    ensures Segments(a + [sep] + b) == Segments(a) + Segments(b)
  {
    var s := a + [sep] + b;
    if a == [] {
      assert s == [sep] + b;
      assert s[1..] == b;
    } else {
      var t := a[1..] + [sep] + b;
      assert s[0] == a[0] && s[1..] == t;
      SegmentsConcat(a[1..], sep, b);
      var h, r := Segments(a[1..]), Segments(t);
      if IsSep(a[0]) {
        assert Segments(s) == [[]] + r;
        assert Segments(a) == [[]] + h;
        AppendAssoc([[]], h, Segments(b));
      } else {
        var x := [a[0]] + h[0];
        assert r[0] == h[0];
        assert r[1..] == h[1..] + Segments(b);
        assert Segments(s) == [x] + r[1..];
        assert Segments(a) == [x] + h[1..];
        AppendAssoc([x], h[1..], Segments(b));
      }
    }
  }

  /** A part that names a directory entry (pathlib drops "" and "."). */
  predicate Kept(part: string) {
    part != [] && part != "."
  }

  function KeptParts(segments: seq<string>): (r: seq<string>)
    ensures forall i :: 0 <= i < |r| ==> Kept(r[i])
    ensures forall i :: 0 <= i < |r| ==> r[i] in segments
    ensures (forall i :: 0 <= i < |segments| ==> Kept(segments[i])) ==> r == segments
    decreases |segments|
  {
    if segments == [] then []
    else if Kept(segments[0]) then [segments[0]] + KeptParts(segments[1..])
    else KeptParts(segments[1..])
  }

  /** The drive prefix: two characters ending in ':' (UNC shares are not modelled). */
  function DriveOf(s: string): string {
    if |s| >= 2 && s[1] == ':' then s[..2] else ""
  }

  /** `PureWindowsPath(s)` */
  function Parse(s: string): (p: PurePath)
    ensures forall i :: 0 <= i < |p.parts| ==> Kept(p.parts[i]) && NoSep(p.parts[i])
  {
    var drive := DriveOf(s);
    var rest := s[|drive|..];
    SegmentsNoSep(rest);
    PurePath(drive, rest != [] && IsSep(rest[0]), KeptParts(Segments(rest)))
  }

  /**
   * `base / name` on Windows: a name with a root replaces everything but the
   * drive, a name on another drive replaces everything, a name on the same
   * drive without a root is appended, and a plain name is appended.
   */
  function Join(base: PurePath, name: string): PurePath {
    var p := Parse(name);
    if p.root then
      if p.drive == [] then PurePath(base.drive, true, p.parts) else p
    else if p.drive != [] then
      if p.drive == base.drive then PurePath(base.drive, base.root, base.parts + p.parts) else p
    else PurePath(base.drive, base.root, base.parts + p.parts)
  }

  /** The parts joined with '\'. */
  function JoinParts(parts: seq<string>): string
    decreases |parts|
  {
    if parts == [] then ""
    else if |parts| == 1 then parts[0]
    else JoinParts(parts[..|parts| - 1]) + "\\" + parts[|parts| - 1]
  }

  lemma {:induction false} JoinPartsConcat(a: seq<string>, b: seq<string>)
    requires a != [] && b != []
    ensures JoinParts(a + b) == JoinParts(a) + "\\" + JoinParts(b)
    decreases |b|
  {
    if |b| == 1 {
      assert (a + b)[..|a + b| - 1] == a;
    } else {
      var init := b[..|b| - 1];
      assert (a + b)[..|a + b| - 1] == a + init;
      JoinPartsConcat(a, init);
    }
  }

  /** `str(path)` */
  function Str(p: PurePath): string {
    p.drive + (if p.root then "\\" else "") + JoinParts(p.parts)
  }

  /** A pure path of plain directory names below a drive's root, as the application directory is. */
  predicate Plain(p: PurePath) {
    && p.root && p.parts != []
    && forall i :: 0 <= i < |p.parts| ==> Kept(p.parts[i]) && NoSep(p.parts[i]) && p.parts[i] != ".."
  }

  function Child(p: PurePath, name: string): PurePath {
    PurePath(p.drive, p.root, p.parts + [name])
  }

  /** One step of resolution: `..` leaves the current directory (it stays at the root), any other part enters it. */
  function Enter(stack: seq<string>, part: string): seq<string> {
    if part == ".." then (if stack == [] then [] else stack[..|stack| - 1]) else stack + [part]
  }

  function Collapse(parts: seq<string>): seq<string>
    decreases |parts|
  {
    if parts == [] then [] else Enter(Collapse(parts[..|parts| - 1]), parts[|parts| - 1])
  }

  /** The location a path names on disk: its drive and the directories left after `..` is applied. */
  function Resolve(p: PurePath): seq<string> {
    [p.drive] + Collapse(p.parts)
  }

  lemma {:induction false} CollapsePlain(parts: seq<string>)
    requires forall i :: 0 <= i < |parts| ==> parts[i] != ".."
    ensures Collapse(parts) == parts
    decreases |parts|
  {
    if parts != [] {
      CollapsePlain(parts[..|parts| - 1]);
    }
  }

  lemma CollapseSnoc(parts: seq<string>, part: string)
    ensures Collapse(parts + [part]) == Enter(Collapse(parts), part)
  {
    assert (parts + [part])[..|parts|] == parts;
  }

  /** A relative name is appended, so the joined path always prints with the base as its prefix. */
  lemma JoinRelativeStr(base: PurePath, name: string)
    requires Parse(name).drive == [] && !Parse(name).root && Parse(name).parts != [] && base.parts != []
    ensures Str(Join(base, name)) == Str(base) + "\\" + JoinParts(Parse(name).parts)
  {
    JoinPartsConcat(base.parts, Parse(name).parts);
  }

  /** Parsing `a\b` for two plain names gives the two parts. */
  lemma ParseTwo(a: string, b: string, sep: char)
    requires IsSep(sep) && Kept(a) && Kept(b) && NoSep(a) && NoSep(b)
    requires |a| >= 2 ==> a[1] != ':'
    ensures Parse(a + [sep] + b) == PurePath("", false, [a, b])
  {
    var s := a + [sep] + b;
    assert |a| == 1 ==> s[1] == sep;
    assert DriveOf(s) == "";
    assert s[0] == a[0];
    SegmentsConcat(a, sep, b);
    SegmentsOfPlain(a);
    SegmentsOfPlain(b);
    assert Segments(s) == [a, b];
  }

  /** A plain file name parses to itself. */
  lemma ParsePlain(name: string)
    requires Kept(name) && NoSep(name) && (|name| >= 2 ==> name[1] != ':')
    ensures Parse(name) == PurePath("", false, [name])
  {
    SegmentsOfPlain(name);
  }
}
