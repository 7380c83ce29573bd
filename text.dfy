/**
 * The pieces of Go's `strings`, `strconv` and `path` packages that the
 * program relies on, on `string` = `seq<char>`.
 */
module Text {
  import opened Wrappers

  /** `sub` occurs in `s` starting at index `i`. */
  ghost predicate OccursAt(s: string, sub: string, i: int) {
    0 <= i && i + |sub| <= |s| && s[i..i + |sub|] == sub
  }

  /** First occurrence of `sub` in `s` at or after `i`, or -1. */
  function IndexFrom(s: string, sub: string, i: nat): (r: int)
    requires i <= |s|
    decreases |s| - i
    ensures r == -1 || i <= r
    ensures r == -1 ==> forall j :: i <= j ==> !OccursAt(s, sub, j)
    ensures r >= 0 ==> OccursAt(s, sub, r) && forall j :: i <= j < r ==> !OccursAt(s, sub, j)
  {
    if i + |sub| > |s| then -1
    else if s[i..i + |sub|] == sub then i
    else IndexFrom(s, sub, i + 1)
  }

  /** strings.Index */
  function Index(s: string, sub: string): int {
    IndexFrom(s, sub, 0)
  }

  /** strings.Contains */
  predicate Contains(s: string, sub: string) {
    Index(s, sub) >= 0
  }

  /** Every string contains the empty string. */
  lemma ContainsEmpty(s: string)
    ensures Contains(s, "")
  {
    assert OccursAt(s, "", 0);
  }

  lemma ContainsIffOccurs(s: string, sub: string)
    ensures Contains(s, sub) <==> exists j :: OccursAt(s, sub, j)
  {
    if Contains(s, sub) {
      assert OccursAt(s, sub, Index(s, sub));
    }
  }

  /** No occurrence of `sub` lies wholly inside the first `i` characters of `s`. */
  lemma {:induction false} PrefixBeforeFirstOccurrence(s: string, sub: string, i: nat)
    requires i <= |s| && sub != ""
    requires forall j :: 0 <= j < i ==> !OccursAt(s, sub, j)
    ensures !Contains(s[..i], sub)
  {
    if Contains(s[..i], sub) {
      var j := Index(s[..i], sub);
      assert OccursAt(s[..i], sub, j);
      assert s[..i][j..j + |sub|] == s[j..j + |sub|];
      assert OccursAt(s, sub, j);
      assert false;
    }
  }

  /** strings.LastIndex for a one-character separator. */
  function LastIndexOf(s: string, c: char): (r: int)
    ensures -1 <= r < |s|
    ensures r == -1 <==> c !in s
    ensures r >= 0 ==> s[r] == c && forall k :: r < k < |s| ==> s[k] != c
  {
    if |s| == 0 then -1
    else if s[|s| - 1] == c then |s| - 1
    else
      assert s[..|s| - 1] + [s[|s| - 1]] == s;
      LastIndexOf(s[..|s| - 1], c)
  }

  /** path.Split: everything up to and including the last '/', and the rest. */
  function PathSplit(p: string): (r: (string, string))
    ensures r.0 + r.1 == p
    ensures '/' !in r.1
    ensures r.0 == "" || r.0[|r.0| - 1] == '/'
  {
    var i := LastIndexOf(p, '/');
    if i < 0 then ("", p)
    else
      assert p[..i + 1][i] == '/';
      assert p[..i + 1] + p[i + 1..] == p;
      (p[..i + 1], p[i + 1..])
  }

  /** A '/' in `p` lies before any slash-free suffix of `p`. */
  lemma SlashBeforeSuffix(p: string, start: nat, k: nat)
    requires start <= |p| && '/' !in p[start..]
    requires k < |p| && p[k] == '/'
    ensures k < start
  {
    forall j | start <= j < |p|
      ensures p[j] != '/'
    {
      assert p[j] == p[start..][j - start];
    }
  }

  /** The split of a path is unique: a directory part ending in '/' and a slash-free file part. */
  lemma PathSplitUnique(p: string, dir: string, file: string)
    requires dir + file == p && '/' !in file && (dir == "" || dir[|dir| - 1] == '/')
    ensures PathSplit(p) == (dir, file)
  {
    var (d, f) := PathSplit(p);
    assert p[|d|..] == f && p[|dir|..] == file;
    if dir != "" {
      SlashBeforeSuffix(p, |d|, |dir| - 1);
    }
    if d != "" {
      SlashBeforeSuffix(p, |dir|, |d| - 1);
    }
    assert d == p[..|d|] && dir == p[..|dir|];
  }

  /** strings.Split. An empty separator splits after each character. */
  function Split(s: string, sep: string): (r: seq<string>)
    decreases |s|
  {
    if sep == "" then Explode(s)
    else
      var i := Index(s, sep);
      if i < 0 then [s]
      else [s[..i]] + Split(s[i + |sep|..], sep)
  }

  function Explode(s: string): (r: seq<string>)
    ensures |r| == |s| && forall k :: 0 <= k < |r| ==> r[k] == [s[k]]
  {
    if s == "" then [] else [[s[0]]] + Explode(s[1..])
  }

  /** Joins `parts` with `sep` between consecutive parts (strings.Join). */
  function Join(parts: seq<string>, sep: string): string {
    if |parts| == 0 then ""
    else if |parts| == 1 then parts[0]
    else parts[0] + sep + Join(parts[1..], sep)
  }

  /** A string without `sep` splits to itself. */
  lemma SplitWithout(s: string, sep: string)
    requires sep != "" && !Contains(s, sep)
    ensures Split(s, sep) == [s]
  {
  }

  /** No piece of a split contains the (non-empty) separator. */
  lemma {:induction false} SplitPiecesFree(s: string, sep: string)
    requires sep != ""
    ensures forall k :: 0 <= k < |Split(s, sep)| ==> !Contains(Split(s, sep)[k], sep)
    decreases |s|
  {
    var i := Index(s, sep);
    if i >= 0 {
      PrefixBeforeFirstOccurrence(s, sep, i);
      SplitPiecesFree(s[i + |sep|..], sep);
    }
  }

  /** Joining the pieces of a split with the separator gives back the string. */
  lemma {:induction false} SplitJoin(s: string, sep: string)
    requires sep != ""
    ensures |Split(s, sep)| >= 1
    ensures Join(Split(s, sep), sep) == s
    decreases |s|
  {
    var i := Index(s, sep);
    if i >= 0 {
      var rest := s[i + |sep|..];
      SplitJoin(rest, sep);
      assert Split(s, sep) == [s[..i]] + Split(rest, sep);
      JoinCons(s[..i], Split(rest, sep), sep);
      SplitsAround(s, sep, i);
    } else {
      assert Split(s, sep) == [s];
    }
  }

  /** Joining a part in front of at least one more puts the separator between them. */
  lemma JoinCons(a: string, parts: seq<string>, sep: string)
    requires |parts| >= 1
    ensures Join([a] + parts, sep) == a + sep + Join(parts, sep)
  {
    assert ([a] + parts)[1..] == parts;
  }

  /** An occurrence of `sep` cuts `s` into the part before, `sep` and the part after. */
  lemma SplitsAround(s: string, sep: string, i: int)
    requires 0 <= i && i + |sep| <= |s| && s[i..i + |sep|] == sep
    ensures s == s[..i] + sep + s[i + |sep|..]
  {
    assert s == s[..i] + s[i..i + |sep|] + s[i + |sep|..];
  }

  /** Splitting at a one-character separator peels off the part before its first occurrence. */
  lemma SplitAtFirst(a: string, c: char, b: string)
    requires c !in a
    ensures Split(a + [c] + b, [c]) == [a] + Split(b, [c])
  {
    var s := a + [c] + b;
    assert OccursAt(s, [c], |a|);
    var i := Index(s, [c]);
    forall j | 0 <= j < |a|
      ensures !OccursAt(s, [c], j)
    {
      assert s[j..j + 1] == [a[j]];
    }
    assert i == |a|;
    assert s[..i] == a && s[i + 1..] == b;
  }

  /** strings.ReplaceAll(s, string(c), ""): every `c` removed. */
  function RemoveAll(s: string, c: char): (r: string)
    ensures c !in r
    ensures |r| <= |s|
    ensures forall x :: x != c ==> multiset(r)[x] == multiset(s)[x]
  {
    if s == "" then ""
    else
      assert s == [s[0]] + s[1..];
      if s[0] == c then RemoveAll(s[1..], c) else [s[0]] + RemoveAll(s[1..], c)
  }

  /** A string without `c` is left unchanged. */
  lemma {:induction false} RemoveAllAbsent(s: string, c: char)
    requires c !in s
    ensures RemoveAll(s, c) == s
  {
    if s != "" {
      RemoveAllAbsent(s[1..], c);
    }
  }

  /** Removing a character distributes over concatenation. */
  lemma {:induction false} RemoveAllConcat(s: string, t: string, c: char)
    ensures RemoveAll(s + t, c) == RemoveAll(s, c) + RemoveAll(t, c)
    decreases |s|
  {
    if s == "" {
      assert s + t == t;
    } else {
      assert (s + t)[1..] == s[1..] + t;
      RemoveAllConcat(s[1..], t, c);
    }
  }

  /** Blanks (spaces and newlines) lose their newlines and keep only spaces. */
  lemma BlanksToSpaces(s: string)
    requires forall k :: 0 <= k < |s| ==> s[k] == ' ' || s[k] == '\n'
    ensures forall k :: 0 <= k < |RemoveAll(s, '\n')| ==> RemoveAll(s, '\n')[k] == ' '
  {
    var r := RemoveAll(s, '\n');
    forall k | 0 <= k < |r|
      ensures r[k] == ' '
    {
      assert r[k] in multiset(r);
      assert r[k] in multiset(s);
    }
  }

  /** strings.TrimLeft(s, " ") */
  function TrimLeftSpaces(s: string): (r: string)
    ensures |r| <= |s| && r == s[|s| - |r|..]
    ensures forall k :: 0 <= k < |s| - |r| ==> s[k] == ' '
    ensures r == "" || r[0] != ' '
  {
    if s != "" && s[0] == ' ' then TrimLeftSpaces(s[1..]) else s
  }

  /** strings.TrimRight(s, " ") */
  function TrimRightSpaces(s: string): (r: string)
    ensures |r| <= |s| && r == s[..|r|]
    ensures forall k :: |r| <= k < |s| ==> s[k] == ' '
    ensures r == "" || r[|r| - 1] != ' '
  {
    if s != "" && s[|s| - 1] == ' ' then TrimRightSpaces(s[..|s| - 1]) else s
  }

  /** Trimming leading spaces adds no character. */
  lemma AbsentAfterTrimLeft(s: string, c: char)
    requires c !in s
    ensures c !in TrimLeftSpaces(s)
  {
    var l := TrimLeftSpaces(s);
    var d := |s| - |l|;
    forall k | 0 <= k < |l|
      ensures l[k] != c
    {
      assert l[k] == s[d + k];
    }
  }

  /** Trimming trailing spaces adds no character. */
  lemma AbsentAfterTrimRight(s: string, c: char)
    requires c !in s
    ensures c !in TrimRightSpaces(s)
  {
    var r := TrimRightSpaces(s);
    forall k | 0 <= k < |r|
      ensures r[k] != c
    {
      assert r[k] == s[k];
    }
  }

  /** strings.Trim(s, " "): leading and trailing spaces removed. */
  function TrimSpaces(s: string): string {
    TrimRightSpaces(TrimLeftSpaces(s))
  }

  /** Leading spaces in front of a part that does not begin with one are trimmed off exactly. */
  lemma {:induction false} TrimLeftPadding(sp: string, x: string)
    requires forall k :: 0 <= k < |sp| ==> sp[k] == ' '
    requires x == "" || x[0] != ' '
    ensures TrimLeftSpaces(sp + x) == x
    decreases |sp|
  {
    if sp == "" {
      assert sp + x == x;
    } else {
      assert (sp + x)[0] == ' ' && (sp + x)[1..] == sp[1..] + x;
      TrimLeftPadding(sp[1..], x);
    }
  }

  /** Trailing spaces after a part that does not end with one are trimmed off exactly. */
  lemma {:induction false} TrimRightPadding(x: string, sp: string)
    requires forall k :: 0 <= k < |sp| ==> sp[k] == ' '
    requires x == "" || x[|x| - 1] != ' '
    ensures TrimRightSpaces(x + sp) == x
    decreases |sp|
  {
    if sp == "" {
      assert x + sp == x;
    } else {
      var xs := x + sp;
      assert xs[|xs| - 1] == ' ' && xs[..|xs| - 1] == x + sp[..|sp| - 1];
      TrimRightPadding(x, sp[..|sp| - 1]);
    }
  }

  /** LATIN CAPITAL LETTER I WITH DOT ABOVE (U+0130), which unicode.ToLower maps to `i`. */
  const DottedCapitalI: char := 0x130 as char
  /** KELVIN SIGN (U+212A), which unicode.ToLower maps to `k`. */
  const KelvinSign: char := 0x212A as char

  /**
   * unicode.ToLower wherever the result is ASCII: the ASCII capitals, the
   * dotted capital I and the Kelvin sign. Every other character is kept;
   * its lower case is not ASCII, so no comparison with an ASCII text can
   * tell the difference.
   */
  function LowerChar(c: char): char {
    if 'A' <= c <= 'Z' then (c as int + 32) as char
    else if c == DottedCapitalI then 'i'
    else if c == KelvinSign then 'k'
    else c
  }

  /** strings.ToLower, character by character. */
  function ToLower(s: string): (r: string)
    ensures |r| == |s| && forall k :: 0 <= k < |s| ==> r[k] == LowerChar(s[k])
  {
    seq(|s|, k requires 0 <= k < |s| => LowerChar(s[k]))
  }

  /**
   * A one-letter answer lower-cases to the letter `c` exactly when it is `c`
   * in either case, or the dotted capital I for `i`, or the Kelvin sign for `k`.
   */
  lemma ToLowerOneLetter(s: string, c: char)
    requires 'a' <= c <= 'z'
    ensures ToLower(s) == [c] <==>
      s == [c] || s == [(c as int - 32) as char] ||
      (c == 'i' && s == [DottedCapitalI]) || (c == 'k' && s == [KelvinSign])
  {
    if ToLower(s) == [c] {
      assert |s| == 1 && LowerChar(s[0]) == c;
    }
    if s == [c] || s == [(c as int - 32) as char] ||
       (c == 'i' && s == [DottedCapitalI]) || (c == 'k' && s == [KelvinSign]) {
      assert ToLower(s)[0] == c;
    }
  }

  // ----- strconv -----

  const MinInt64: int := -0x8000_0000_0000_0000
  const MaxInt64: int := 0x7fff_ffff_ffff_ffff

  /** Two to the 64th, the modulus of Go's 64-bit `int` arithmetic. */
  const Modulus64: int := 0x1_0000_0000_0000_0000

  /** The int64 that Go's `int` arithmetic leaves for the exact value `x`: `x` reduced into range modulo 2^64. */
  function WrapInt64(x: int): (r: int)
    ensures MinInt64 <= r <= MaxInt64
    ensures MinInt64 <= x <= MaxInt64 ==> r == x
  {
    (x - MinInt64) % Modulus64 + MinInt64
  }

  /** Wrapping an intermediate result does not change the wrapped sum. */
  lemma WrapAddLeft(x: int, y: int)
    ensures WrapInt64(WrapInt64(x) + y) == WrapInt64(x + y)
  {
    var q := (x - MinInt64) / Modulus64;
    assert WrapInt64(x) == x - q * Modulus64;
    WrapShift(x + y, q);
  }

  /** Wrapped addition is associative. */
  lemma WrapAssoc(x: int, y: int, z: int)
    ensures WrapInt64(WrapInt64(x + y) + z) == WrapInt64(x + WrapInt64(y + z))
  {
    WrapAddLeft(x + y, z);
    WrapAddLeft(y + z, x);
    assert x + y + z == y + z + x;
  }

  /** Shifting by a multiple of 2^64 does not change the wrapped value. */
  lemma WrapShift(x: int, q: int)
    ensures WrapInt64(x - q * Modulus64) == WrapInt64(x)
  {
    var a, b := (x - MinInt64) % Modulus64, (x - q * Modulus64 - MinInt64) % Modulus64;
    var qa, qb := (x - MinInt64) / Modulus64, (x - q * Modulus64 - MinInt64) / Modulus64;
    assert x - MinInt64 == qa * Modulus64 + a;
    assert x - q * Modulus64 - MinInt64 == qb * Modulus64 + b;
    assert a - b == (qb + q - qa) * Modulus64;
  }

  predicate IsDigit(c: char) {
    '0' <= c <= '9'
  }

  predicate AllDigits(s: string) {
    forall k :: 0 <= k < |s| ==> IsDigit(s[k])
  }

  function DigitValue(c: char): nat
    requires IsDigit(c)
  {
    c as int - '0' as int
  }

  function DigitChar(d: nat): (c: char)
    requires d < 10
    ensures IsDigit(c) && DigitValue(c) == d
  {
    ('0' as int + d) as char
  }

  /** The value of a string of decimal digits, most significant first. */
  function DecimalValue(s: string): nat
    requires AllDigits(s)
  {
    if |s| == 0 then 0 else DecimalValue(s[..|s| - 1]) * 10 + DigitValue(s[|s| - 1])
  }

  /** The decimal digits of `n`, most significant first, without leading zeros. */
  function NatDigits(n: nat): (r: string)
    ensures |r| >= 1 && AllDigits(r) && DecimalValue(r) == n
    ensures |r| > 1 ==> r[0] != '0'
  {
    if n < 10 then [DigitChar(n)]
    else
      var front := NatDigits(n / 10);
      var r := front + [DigitChar(n % 10)];
      assert r[..|r| - 1] == front;
      r
  }

  /** strconv.Itoa */
  function Itoa(n: int): string {
    if n < 0 then "-" + NatDigits(-n) else NatDigits(n)
  }

  /**
   * strconv.Atoi on a 64-bit platform: an optional '+' or '-', then one or
   * more decimal digits, and a value that fits in an int64.
   */
  function Atoi(s: string): (r: Option<int>)
    ensures r.Some? ==> MinInt64 <= r.value <= MaxInt64
  {
    var negative := |s| > 0 && s[0] == '-';
    var digits := if |s| > 0 && (s[0] == '+' || s[0] == '-') then s[1..] else s;
    if |digits| == 0 || !AllDigits(digits) then None
    else
      var v: int := if negative then -(DecimalValue(digits) as int) else DecimalValue(digits);
      if MinInt64 <= v <= MaxInt64 then Some(v) else None
  }

  /** Atoi accepts exactly the optionally signed digit strings whose value fits in an int64. */
  lemma AtoiAccepts(s: string)
    ensures Atoi(s).Some? <==>
      exists sign, d :: sign in {"", "+", "-"} && s == sign + d && d != "" && AllDigits(d) &&
        MinInt64 <= (if sign == "-" then -(DecimalValue(d) as int) else DecimalValue(d)) <= MaxInt64
  {
    var negative := |s| > 0 && s[0] == '-';
    var signed := |s| > 0 && (s[0] == '+' || s[0] == '-');
    var digits := if signed then s[1..] else s;
    var sign := if signed then [s[0]] else "";
    assert s == sign + digits;
    assert sign in {"", "+", "-"};
    forall sign', d | sign' in {"", "+", "-"} && s == sign' + d && d != "" && AllDigits(d)
      ensures sign' == sign && d == digits
    {
      if sign' == "" {
        assert s[0] == d[0] && IsDigit(d[0]);
      } else {
        assert s[0] == sign'[0];
        assert d == s[1..];
      }
    }
  }

  /** Parsing what Itoa prints gives the number back. */
  lemma AtoiItoa(n: int)
    requires MinInt64 <= n <= MaxInt64
    ensures Atoi(Itoa(n)) == Some(n)
  {
    if n < 0 {
      var d := NatDigits(-n);
      assert Itoa(n) == "-" + d && Itoa(n)[1..] == d;
    } else {
      var d := NatDigits(n);
      assert IsDigit(d[0]);
    }
  }

  /** Concatenation is associative. */
  lemma AppendAssoc<T>(a: seq<T>, b: seq<T>, c: seq<T>)
    ensures a + (b + c) == (a + b) + c
  {
  }

  /** A prefix of a prefix is a prefix. */
  lemma PrefixTransitive<T>(a: seq<T>, b: seq<T>, c: seq<T>)
    requires |a| <= |b| <= |c| && b[..|a|] == a && c[..|b|] == b
    ensures c[..|a|] == a
  {
    assert c[..|a|] == c[..|b|][..|a|];
  }
}
