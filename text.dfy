/**
 * The string operations the clustering code takes from Python's standard
 * library: os.path.basename, the stem of os.path.splitext, str.split with a
 * separator, str.startswith, and the decimal conversions int() and str().
 */
module Text {
  import opened Wrappers

  predicate StartsWith(s: string, prefix: string) {
    |prefix| <= |s| && s[..|prefix|] == prefix
  }

  predicate EndsWith(s: string, suffix: string) {
    |suffix| <= |s| && s[|s| - |suffix|..] == suffix
  }

  /** `sub` occurs in `s` starting at index `i`. */
  predicate OccursAt(s: string, sub: string, i: int) {
    0 <= i && i + |sub| <= |s| && s[i..i + |sub|] == sub
  }

  predicate Contains(s: string, sub: string) {
    exists i :: 0 <= i <= |s| && OccursAt(s, sub, i)
  }

  // ---------------------------------------------------------------------
  // os.path.basename

  /** The part of `path` after its last '/', as os.path.basename on POSIX. */
  function Basename(path: string): string {
    if |path| == 0 || path[|path| - 1] == '/' then ""
    else Basename(path[..|path| - 1]) + [path[|path| - 1]]
  }

  /** The base name is the '/'-free tail of the path, and it is the whole path or follows a '/'. */
  lemma {:induction false} BasenameSpec(path: string)
    ensures var r := Basename(path);
            '/' !in r && EndsWith(path, r) && (|r| == |path| || path[|path| - |r| - 1] == '/')
  {
    if |path| > 0 && path[|path| - 1] != '/' {
      var init, c := path[..|path| - 1], path[|path| - 1];
      BasenameSpec(init);
      var r0 := Basename(init);
      var r := r0 + [c];
      assert Basename(path) == r;
      assert path == init + [c];
      var n := |init| - |r0|;
      assert path[n..] == init[n..] + [c];
      assert init[n..] == r0;
      if |r0| < |init| {
        assert path[n - 1] == init[n - 1];
      }
    }
  }

  /** Joining a directory that is empty or ends in '/' with a plain name gives that name back. */
  lemma {:induction false} BasenameOfJoin(dir: string, name: string)
    requires dir == "" || dir[|dir| - 1] == '/'
    requires '/' !in name
    ensures Basename(dir + name) == name
  {
    var p := dir + name;
    if name == [] {
      assert p == dir;
    } else {
      var init := name[..|name| - 1];
      var last := name[|name| - 1];
      assert p[|p| - 1] == last;
      assert p[..|p| - 1] == dir + init;
      assert '/' !in init by {
        forall i | 0 <= i < |init| ensures init[i] != '/' { assert init[i] == name[i]; }
      }
      BasenameOfJoin(dir, init);
      assert Basename(p) == Basename(dir + init) + [last];
      assert init + [last] == name;
    }
  }

  // ---------------------------------------------------------------------
  // Searching

  /** The first index at or after `from` where `sub` occurs in `s`, as str.find. */
  function FindFrom(s: string, sub: string, from: nat): (r: Option<nat>)
    decreases |s| - from
    ensures r.Some? ==> from <= r.value && OccursAt(s, sub, r.value)
    ensures r.Some? ==> forall j :: from <= j < r.value ==> !OccursAt(s, sub, j)
    ensures r.None? ==> forall j :: from <= j ==> !OccursAt(s, sub, j)
  {
    if from + |sub| > |s| then None
    else if s[from..from + |sub|] == sub then Some(from)
    else FindFrom(s, sub, from + 1)
  }

  function Find(s: string, sub: string): (r: Option<nat>)
    ensures r.Some? ==> OccursAt(s, sub, r.value) && forall j :: 0 <= j < r.value ==> !OccursAt(s, sub, j)
    ensures r.None? <==> !Contains(s, sub)
  {
    FindFrom(s, sub, 0)
  }

  /** The last index of `c` in `s`, as str.rfind. */
  function LastIndexOf(s: string, c: char): (r: Option<nat>)
    ensures r.Some? ==> r.value < |s| && s[r.value] == c && c !in s[r.value + 1..]
    ensures r.None? <==> c !in s
  {
    if |s| == 0 then None
    else if s[|s| - 1] == c then Some(|s| - 1)
    else match LastIndexOf(s[..|s| - 1], c)
      case None => None
      case Some(i) => assert s[i + 1..] == s[..|s| - 1][i + 1..] + [s[|s| - 1]]; Some(i)
  }

  /** An occurrence of `c` with none after it is the one LastIndexOf reports. */
  lemma LastIndexOfIs(s: string, c: char, i: nat)
    requires i < |s| && s[i] == c && c !in s[i + 1..]
    ensures LastIndexOf(s, c) == Some(i)
  {
    assert c in s by { assert s[i] == c; }
  }

  // ---------------------------------------------------------------------
  // str.split(sep)

  /** Python's s.split(sep) for a non-empty separator: the pieces between non-overlapping occurrences, left to right. */
  function Split(s: string, sep: string): (r: seq<string>)
    requires sep != ""
    decreases |s|
    ensures |r| >= 1
  {
    match Find(s, sep)
    case None => [s]
    case Some(i) => [s[..i]] + Split(s[i + |sep|..], sep)
  }

  /** sep.join(parts) */
  function Join(parts: seq<string>, sep: string): string
    requires |parts| >= 1
  {
    if |parts| == 1 then parts[0] else parts[0] + sep + Join(parts[1..], sep)
  }

  /** No occurrence starts before `i`, so the prefix up to `i` holds none. */
  lemma CleanPrefix(s: string, sub: string, i: nat)
    requires sub != "" && i <= |s|
    requires forall j :: 0 <= j < i ==> !OccursAt(s, sub, j)
    ensures !Contains(s[..i], sub)
  {
    forall j | 0 <= j <= i
      ensures !OccursAt(s[..i], sub, j)
    {
      if j + |sub| <= i {
        assert !OccursAt(s, sub, j);
        assert s[..i][j..j + |sub|] == s[j..j + |sub|];
      }
    }
  }

  /** Joining the pieces of a split with the separator reproduces the string. */
  lemma {:induction false} SplitJoin(s: string, sep: string)
    requires sep != ""
    ensures Join(Split(s, sep), sep) == s
    decreases |s|
  {
    match Find(s, sep)
    case None =>
    case Some(i) =>
      var rest := s[i + |sep|..];
      var tail := Split(rest, sep);
      var pieces := Split(s, sep);
      SplitJoin(rest, sep);
      assert pieces == [s[..i]] + tail;
      assert pieces[1..] == tail;
      assert Join(pieces, sep) == s[..i] + sep + Join(tail, sep);
      assert s[i..i + |sep|] == sep;
      assert s == s[..i] + s[i..i + |sep|] + rest;
  }

  /** No piece of a split contains the separator. */
  lemma {:induction false} SplitPiecesClean(s: string, sep: string)
    requires sep != ""
    ensures forall k :: 0 <= k < |Split(s, sep)| ==> !Contains(Split(s, sep)[k], sep)
    decreases |s|
  {
    match Find(s, sep)
    case None =>
    case Some(i) =>
      var rest := s[i + |sep|..];
      SplitPiecesClean(rest, sep);
      CleanPrefix(s, sep, i);
      var pieces := Split(s, sep);
      assert pieces == [s[..i]] + Split(rest, sep);
      forall k | 0 <= k < |pieces|
        ensures !Contains(pieces[k], sep)
      {
        if k > 0 {
          assert pieces[k] == Split(rest, sep)[k - 1];
        }
      }
  }

  /** The separator the alignment files use between the two genome names. */
  const VS: string := "_vs_"

  /**
   * a + "_vs_" + b splits back into [a, b] when "_vs_" occurs only at the join:
   * neither name contains "_vs_" and the first name does not end in "_vs".
   */
  lemma SplitVsPair(a: string, b: string)
    requires !Contains(a, VS) && !Contains(b, VS)
    requires !EndsWith(a, "_vs")
    ensures Split(a + VS + b, VS) == [a, b]
  {
    var s := a + VS + b;
    forall j | 0 <= j < |a|
      ensures !OccursAt(s, VS, j)
    {
      if j + 4 <= |a| {
        assert s[j..j + 4] == a[j..j + 4];
        assert !OccursAt(a, VS, j);
      } else if j == |a| - 1 {
        assert s[j..j + 4][1] == '_';
      } else if j == |a| - 2 {
        assert s[j..j + 4][2] == '_';
      } else {
        assert s[j..j + 4][..3] == a[|a| - 3..];
        assert VS[..3] == "_vs";
      }
    }
    assert OccursAt(s, VS, |a|) by { assert s[|a|..|a| + 4] == VS; }
    assert Find(s, VS) == Some(|a|);
    assert s[|a| + 4..] == b;
    assert Find(b, VS) == None;
    assert Split(b, VS) == [b];
    assert s[..|a|] == a;
  }

  /** A first name ending in "_vs" is split at the wrong place: "a_vs" and "b" come back as "a" and "vs_b". */
  lemma SplitVsAmbiguous()
    ensures Split("a_vs" + VS + "b", VS) == ["a", "vs_b"]
  {
    var s := "a_vs" + VS + "b";
    assert s == "a_vs_vs_b";
    assert !OccursAt(s, VS, 0) by { assert s[0] == 'a'; }
    assert OccursAt(s, VS, 1) by { assert s[1..5] == VS; }
    assert Find(s, VS) == Some(1);
    assert s[..1] == "a";
    var rest := s[5..];
    assert rest == "vs_b";
    assert !Contains(rest, VS) by {
      forall j | 0 <= j <= |rest| ensures !OccursAt(rest, VS, j) {
        if j == 0 { assert rest[0..4][0] == 'v'; }
      }
    }
    assert Find(rest, VS) == None;
    assert Split(rest, VS) == [rest];
  }

  // ---------------------------------------------------------------------
  // os.path.splitext(name)[0]

  /**
   * The root of os.path.splitext applied to a name without '/': the extension is
   * everything from the last '.', unless only dots precede it.
   */
  function StripExtension(name: string): string {
    match LastIndexOf(name, '.')
    case None => name
    case Some(d) =>
      if exists k :: 0 <= k < d && name[k] != '.' then name[..d] else name
  }

  /** The root is a prefix of the name, and what it drops starts at the last '.'. */
  lemma StripExtensionSpec(name: string)
    ensures var r := StripExtension(name);
            StartsWith(name, r) && (r == name || (name[|r|] == '.' && '.' !in name[|r| + 1..]))
  {
  }

  /** The stem of stem + ".delta" is stem, provided the stem is not made only of dots. */
  lemma StripDeltaExtension(stem: string)
    requires exists k :: 0 <= k < |stem| && stem[k] != '.'
    ensures StripExtension(stem + ".delta") == stem
  {
    var name := stem + ".delta";
    assert name[|stem| + 1..] == "delta";
    LastIndexOfIs(name, '.', |stem|);
    var k :| 0 <= k < |stem| && stem[k] != '.';
    assert name[k] == stem[k];
    assert name[..|stem|] == stem;
  }

  // ---------------------------------------------------------------------
  // Decimal integers: str(n) and int(s)

  predicate IsDigit(c: char) { '0' <= c <= '9' }

  predicate AllDigits(s: string) { forall i :: 0 <= i < |s| ==> IsDigit(s[i]) }

  function DigitChar(d: nat): (c: char)
    requires d < 10
    ensures IsDigit(c) && (c as int) - ('0' as int) == d
  {
    (('0' as int) + d) as char
  }

  /** str(n) for a non-negative n: the shortest decimal numeral. */
  function NatToString(n: nat): string {
    if n < 10 then [DigitChar(n)] else NatToString(n / 10) + [DigitChar(n % 10)]
  }

  /** str(n) for n >= 0 is a non-empty run of digits with no leading zero. */
  lemma {:induction false} NatToStringDigits(n: nat)
    ensures var r := NatToString(n); |r| >= 1 && AllDigits(r) && (|r| > 1 ==> r[0] != '0')
  {
    if n >= 10 {
      NatToStringDigits(n / 10);
    }
  }

  /** str(n) */
  function IntToString(n: int): string {
    if n < 0 then "-" + NatToString(-n) else NatToString(n)
  }

  /** str(n) holds neither '_' nor '/'. */
  lemma IntToStringClean(n: int)
    ensures '_' !in IntToString(n) && '/' !in IntToString(n)
  {
    NatToStringDigits(if n < 0 then -n else n);
  }

  function DigitsValue(s: string): nat
    requires AllDigits(s)
  {
    if |s| == 0 then 0 else 10 * DigitsValue(s[..|s| - 1]) + ((s[|s| - 1] as int) - ('0' as int))
  }

  /** int(s) on an already-stripped token: an optional sign and one or more ASCII digits. */
  function ParseInt(s: string): (r: Option<int>)
    ensures r.Some? <==> (|s| >= 1 && AllDigits(s)) || (|s| >= 2 && (s[0] == '-' || s[0] == '+') && AllDigits(s[1..]))
  {
    if |s| >= 1 && AllDigits(s) then Some(DigitsValue(s))
    else if |s| >= 2 && (s[0] == '-' || s[0] == '+') && AllDigits(s[1..]) then
      var v: int := if s[0] == '-' then -(DigitsValue(s[1..]) as int) else DigitsValue(s[1..]) as int;
      Some(v)
    else None
  }

  lemma {:induction false} DigitsOfNat(n: nat)
    requires AllDigits(NatToString(n))
    ensures DigitsValue(NatToString(n)) == n
  {
    if n >= 10 {
      NatToStringDigits(n / 10);
      var r := NatToString(n);
      DigitsOfNat(n / 10);
      assert r[..|r| - 1] == NatToString(n / 10);
    }
  }

  /** int(str(n)) == n */
  lemma ParseIntToString(n: int)
    ensures ParseInt(IntToString(n)) == Some(n)
  {
    var r := IntToString(n);
    NatToStringDigits(if n < 0 then -n else n);
    if n < 0 {
      var digits := NatToString(-n);
      DigitsOfNat(-n);
      assert r == "-" + digits;
      assert r[1..] == digits;
      assert !IsDigit(r[0]);
      assert !AllDigits(r);
    } else {
      DigitsOfNat(n);
    }
  }

  /** Distinct integers have distinct decimal renderings. */
  lemma IntToStringInjective(m: int, n: int)
    requires IntToString(m) == IntToString(n)
    ensures m == n
  {
    ParseIntToString(m);
    ParseIntToString(n);
  }
}
