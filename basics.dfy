/** Values shared by the whole model: the Python string and path operations
    the core relies on, the outcome of a step that may raise, and the shape
    in which a directory walk (os.walk) is handed to the model. */
module Basics {

  type byte = x: int | 0 <= x < 256

  datatype Option<+T> = None | Some(value: T)

  /** The reason a step raised instead of returning normally. */
  datatype Fault =
    | ArchiveUnreadable(archive: string)  // zipfile could not open or extract it
    | NotADirectory(folder: string)       // a folder that had to exist is missing
    | UnboundName(name: string)           // a local variable read before assignment
    | ModelFailed(path: string)           // the embedding model raised on this image
    | MeasureFailed(path: string)         // OpenCV raised while measuring a crop
    | BadLogFields                        // a decoded log lacks usable fields
    | ExternalFailure                     // a collaborator outside the model raised
    | ReceiveAfterClose                   // receive() once the disconnect message was returned

  /** What a Python call does: return a value or raise. */
  datatype Outcome<+T> = Done(value: T) | Raised(fault: Fault)

  function Min(a: int, b: int): int { if a <= b then a else b }

  // ---------------------------------------------------------------------
  // str.startswith / str.endswith

  predicate StartsWith(s: string, prefix: string) {
    |prefix| <= |s| && s[..|prefix|] == prefix
  }

  predicate EndsWith(s: string, suffix: string) {
    |suffix| <= |s| && s[|s| - |suffix|..] == suffix
  }

  // ---------------------------------------------------------------------
  // str(n), str.isdigit() and int(s) on ASCII decimal digits

  predicate IsAsciiDigit(c: char) { '0' <= c <= '9' }

  /** `s.isdigit()`: non-empty and every character a decimal digit. */
  predicate IsDigits(s: string) {
    |s| > 0 && forall i :: 0 <= i < |s| ==> IsAsciiDigit(s[i])
  }

  function DigitChar(d: nat): (c: char)
    requires d < 10
    ensures IsAsciiDigit(c) && c as int - '0' as int == d
  {
    (d + '0' as int) as char
  }

  /** `str(n)` for a non-negative integer. */
  function NatToString(n: nat): string
    decreases n
  {
    if n < 10 then [DigitChar(n)] else NatToString(n / 10) + [DigitChar(n % 10)]
  }

  /** `str(i)`: a minus sign before the digits of a negative number. */
  function IntToString(i: int): string {
    if i < 0 then "-" + NatToString(-i) else NatToString(i)
  }

  function DigitValue(c: char): nat
    requires IsAsciiDigit(c)
  {
    c as int - '0' as int
  }

  /** `int(s)` for a string of decimal digits (leading zeros allowed). */
  function DigitsValue(s: string): nat
    requires forall i :: 0 <= i < |s| ==> IsAsciiDigit(s[i])
  {
    if s == [] then 0
    else DigitsValue(s[..|s| - 1]) * 10 + DigitValue(s[|s| - 1])
  }

  /** `int(str(n)) == n` and `str(n).isdigit()`. */
  lemma {:induction false} NatToStringRoundTrip(n: nat)
    ensures IsDigits(NatToString(n))
    ensures DigitsValue(NatToString(n)) == n
    decreases n
  {
    if n >= 10 {
      NatToStringRoundTrip(n / 10);
      var s := NatToString(n);
      assert s[..|s| - 1] == NatToString(n / 10);
    }
  }

  /** `str(i)` never contains a dot or a path separator, and is never empty. */
  lemma IntToStringPlain(i: int)
    ensures |IntToString(i)| > 0
    ensures '.' !in IntToString(i) && '/' !in IntToString(i)
  {
    var n: nat := if i < 0 then -i else i;
    NatToStringRoundTrip(n);
    var s := NatToString(n);
    assert forall c :: c in s ==> IsAsciiDigit(c);
  }

  /** `str(i)` starts with a minus sign exactly when `i` is negative. */
  lemma IntToStringSign(i: int)
    ensures |IntToString(i)| > 0 && (IntToString(i)[0] == '-' <==> i < 0)
  {
    var n: nat := if i < 0 then -i else i;
    NatToStringRoundTrip(n);
  }

  /** Different integers print differently. */
  lemma IntToStringInjective(a: int, b: int)
    requires IntToString(a) == IntToString(b)
    ensures a == b
  {
    var na: nat := if a < 0 then -a else a;
    var nb: nat := if b < 0 then -b else b;
    NatToStringRoundTrip(na);
    NatToStringRoundTrip(nb);
    IntToStringSign(a);
    IntToStringSign(b);
    var sa, sb := NatToString(na), NatToString(nb);
    if a < 0 && b < 0 {
      assert sa == IntToString(a)[1..] == IntToString(b)[1..] == sb;
    }
  }

  // ---------------------------------------------------------------------
  // str.rfind, os.path.splitext, os.path.join, pathlib suffixes, str.lower

  /** `s.rfind(c)`: the index of the last occurrence of `c`, or -1. */
  function RFind(s: string, c: char): (i: int)
    ensures -1 <= i < |s|
    ensures i >= 0 ==> s[i] == c && forall j :: i < j < |s| ==> s[j] != c
    ensures i == -1 ==> c !in s
    decreases |s|
  {
    if s == [] then -1
    else if s[|s| - 1] == c then |s| - 1
    else RFind(s[..|s| - 1], c)
  }

  /** `os.path.splitext(p)` on POSIX: the extension starts at the last dot
      after the last separator, unless only dots precede it in the last
      component (".bashrc" and "..zip" have no extension). */
  function SplitExt(p: string): (r: (string, string))
    ensures r.0 + r.1 == p
    ensures r.1 == [] || (r.1[0] == '.' && '.' !in r.1[1..] && '/' !in r.1)
  {
    var sep := RFind(p, '/');
    var dot := RFind(p, '.');
    if dot > sep && exists k :: sep + 1 <= k < dot && p[k] != '.'
    then
      LastDotStartsExtension(p, sep, dot);
      (p[..dot], p[dot..])
    else (p, "")
  }

  /** From the last dot after the last separator on, a name holds one dot
      and no separator. */
  lemma LastDotStartsExtension(p: string, sep: int, dot: int)
    requires sep == RFind(p, '/') && dot == RFind(p, '.') && dot > sep
    ensures p[..dot] + p[dot..] == p
    ensures p[dot..][0] == '.' && '.' !in p[dot..][1..] && '/' !in p[dot..]
  {
    var ext := p[dot..];
    NoDotAfterLast(p, dot);
    assert '/' !in ext by {
      forall j | 0 <= j < |ext| ensures ext[j] != '/' {
        assert ext[j] == p[dot + j];
      }
    }
  }

  /** Past the last dot of a name there is no other dot. */
  lemma NoDotAfterLast(p: string, dot: int)
    requires 0 <= dot && dot == RFind(p, '.')
    ensures '.' !in p[dot..][1..]
  {
    var tail := p[dot..][1..];
    forall j | 0 <= j < |tail| ensures tail[j] != '.' {
      assert tail[j] == p[dot + 1 + j];
    }
  }

  /** "<stem>.zip" splits into the stem and ".zip" when the stem is a plain
      name (no dot, no separator), as `str(id)` always is. */
  lemma {:induction false} SplitExtOfZip(stem: string)
    requires |stem| > 0 && '.' !in stem && '/' !in stem
    ensures SplitExt(stem + ".zip") == (stem, ".zip")
  {
    var p := stem + ".zip";
    assert p[|stem|] == '.';
    assert forall j :: |stem| < j < |p| ==> p[j] != '.';
    assert RFind(p, '.') == |stem|;
    assert '/' !in p;
    assert RFind(p, '/') == -1;
    assert p[0] == stem[0] != '.';
    assert p[..|stem|] == stem;
  }

  /** `os.path.join(a, b)` for two path strings. */
  function Join(a: string, b: string): string {
    if StartsWith(b, "/") then b
    else if a == "" || EndsWith(a, "/") then a + b
    else a + "/" + b
  }

  /** An absolute second part replaces the first; otherwise a separator is
      put between the two exactly when the first is non-empty and does not
      already end in one. Either way the result ends with the second part. */
  lemma JoinMeaning(a: string, b: string)
    ensures StartsWith(b, "/") ==> Join(a, b) == b
    ensures !StartsWith(b, "/") ==> (Join(a, b) == a + "/" + b <==> a != "" && !EndsWith(a, "/"))
    ensures !StartsWith(b, "/") ==> (Join(a, b) == a + b <==> a == "" || EndsWith(a, "/"))
    ensures EndsWith(Join(a, b), b)
  {
    var r := Join(a, b);
    assert r[|r| - |b|..] == b;
    assert |a + "/" + b| != |a + b|;
  }

  /** Joining two plain names puts exactly one separator between them. */
  lemma JoinPlain(a: string, b: string)
    requires a != [] && a[|a| - 1] != '/'
    requires b == [] || b[0] != '/'
    ensures Join(a, b) == a + "/" + b
  {
    if |b| > 0 {
      assert b[..1][0] == b[0];
    }
    assert a[|a| - 1..][0] == a[|a| - 1];
  }

  /** The directory `base/c1/.../cn`, as os.walk builds its roots. */
  function JoinAll(base: string, comps: seq<string>): string
    decreases |comps|
  {
    if comps == [] then base else JoinAll(Join(base, comps[0]), comps[1..])
  }

  /** A joined path ends with its last component. */
  lemma {:induction false} JoinAllEndsWithLast(base: string, comps: seq<string>)
    requires comps != []
    ensures EndsWith(JoinAll(base, comps), comps[|comps| - 1])
    decreases |comps|
  {
    if |comps| > 1 {
      JoinAllEndsWithLast(Join(base, comps[0]), comps[1..]);
    } else {
      assert JoinAll(Join(base, comps[0]), comps[1..]) == Join(base, comps[0]);
      JoinMeaning(base, comps[0]);
    }
  }

  /** Ending with a string that ends with a suffix ends with that suffix. */
  lemma EndsWithTrans(s: string, t: string, u: string)
    requires EndsWith(s, t) && EndsWith(t, u)
    ensures EndsWith(s, u)
  {
    assert s[|s| - |u|..] == s[|s| - |t|..][|t| - |u|..];
  }

  /** `PurePath.suffix`: from the last dot of the name, unless the dot is
      the first or the last character. */
  function PathSuffix(name: string): string {
    var i := RFind(name, '.');
    if 0 < i < |name| - 1 then name[i..] else ""
  }

  /** A suffix is empty, or a dot and at least one more character ending
      the name, after something else, with no second dot. */
  lemma PathSuffixShape(name: string)
    ensures var r := PathSuffix(name);
      r == "" || (1 < |r| < |name| && EndsWith(name, r) && r[0] == '.' && '.' !in r[1..])
  {
    var i := RFind(name, '.');
    if 0 < i < |name| - 1 {
      NoDotAfterLast(name, i);
      assert name[|name| - |name[i..]|..] == name[i..];
    }
  }

  /** `PurePath.with_suffix(suffix)` applied to a final path component. */
  function WithSuffix(name: string, suffix: string): string {
    var current := PathSuffix(name);
    if current == "" then name + suffix else name[..|name| - |current|] + suffix
  }

  /** with_suffix replaces the name's suffix, or appends when it has none:
      the name without its suffix, then the new suffix. */
  lemma WithSuffixMeaning(name: string, suffix: string)
    ensures var r := WithSuffix(name, suffix);
      EndsWith(r, suffix) && r[..|r| - |suffix|] + PathSuffix(name) == name
  {
    PathSuffixShape(name);
    var r := WithSuffix(name, suffix);
    var current := PathSuffix(name);
    var stem := name[..|name| - |current|];
    assert r == stem + suffix;
    assert r[|r| - |suffix|..] == suffix && r[..|r| - |suffix|] == stem;
    assert stem + current == name;
  }

  /** `str.lower()` restricted to ASCII letters. */
  function LowerAscii(s: string): (r: string)
    ensures |r| == |s|
  {
    seq(|s|, i requires 0 <= i < |s| =>
      if 'A' <= s[i] <= 'Z' then (s[i] as int + 32) as char else s[i])
  }

  // ---------------------------------------------------------------------
  // The directory walk

  /** A regular file as os.walk lists it, with the bytes a read returns. */
  datatype FileItem = FileItem(name: string, data: seq<byte>)

  /** One tuple of os.walk: the directory, given by its components below the
      walked top, and the regular files in it in listing order. */
  datatype WalkStep = WalkStep(rel: seq<string>, files: seq<FileItem>)

  function Names(files: seq<FileItem>): (names: seq<string>)
    ensures |names| == |files|
    ensures forall i :: 0 <= i < |files| ==> names[i] == files[i].name
  {
    seq(|files|, i requires 0 <= i < |files| => files[i].name)
  }
}
