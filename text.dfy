/**
 * String helpers shared by the parsers: prefixes, character classes,
 * JavaScript's `substr`, `split` and `join`, `Number.prototype.toString`
 * for integers, and the two search orders an ECMAScript regular expression
 * backtracks through (ECMA-262 section 22.2.2, Pattern Semantics):
 * a greedy quantifier tries its longest repetition first, and a
 * disjunction tries its alternatives from left to right.
 */
module Text {
  import opened Wrappers

  predicate StartsWith(s: string, p: string) {
    |p| <= |s| && s[..|p|] == p
  }

  /** A prefix and what follows it make up the text. */
  lemma PrefixSplit(s: string, p: string)
    requires StartsWith(s, p)
    ensures s == p + s[|p|..]
  {
    assert s == s[..|p|] + s[|p|..];
  }

  predicate EndsWith(s: string, p: string) {
    |p| <= |s| && s[|s| - |p|..] == p
  }

  predicate IsDigit(c: char) {
    '0' <= c <= '9'
  }

  predicate AllDigits(s: string) {
    forall i :: 0 <= i < |s| ==> IsDigit(s[i])
  }

  /** An optional capture of `([0-9]+)`: absent, or a non-empty run of digits. */
  predicate IsDigitCapture(n: Option<string>) {
    n.Some? ==> (n.value != [] && AllDigits(n.value))
  }

  /** The line terminators that `.` does not match (ECMA-262 section 22.2.2.9). */
  predicate IsLineTerminator(c: char) {
    c == '\n' || c == '\r' || c == '\U{2028}' || c == '\U{2029}'
  }

  predicate NoLineTerminator(s: string) {
    forall i :: 0 <= i < |s| ==> !IsLineTerminator(s[i])
  }

  /** `$`: the end of the text. */
  predicate AtEnd(v: string) {
    v == ""
  }

  /** A code table: key and long name, in the order the source lists them
      (the order of `Object.keys`, which the alternation built from it follows). */
  type Table = seq<(string, string)>

  function Keys(table: Table): (keys: seq<string>)
    ensures |keys| == |table| && forall i :: 0 <= i < |table| ==> keys[i] == table[i].0
  {
    seq(|table|, i requires 0 <= i < |table| => table[i].0)
  }

  /** A JavaScript object used as a dictionary: the value of the first entry
      with the key, or `None` for `undefined`. */
  function Lookup(table: Table, key: string): (r: Option<string>)
    ensures r.None? <==> forall i :: 0 <= i < |table| ==> table[i].0 != key
    ensures r.Some? ==> exists i :: 0 <= i < |table| && table[i] == (key, r.value)
  {
    if table == [] then None
    else if table[0].0 == key then Some(table[0].1)
    else
      var r := Lookup(table[1..], key);
      assert r.Some? ==> exists i :: 0 <= i < |table[1..]| && table[1..][i] == (key, r.value);
      r
  }

  /** `${x}` of a value that may be `undefined`. */
  function Rendered(v: Option<string>): string {
    match v
    case None => "undefined"
    case Some(s) => s
  }

  /** Length of the longest prefix of `t` made of characters `c` holds for:
      the most a greedy `[0-9]+` (or `9+`, or `.+`) can take. */
  function DigitRun(t: string): (n: nat)
    ensures n <= |t| && AllDigits(t[..n])
    ensures n < |t| ==> !IsDigit(t[n])
  {
    if t == [] || !IsDigit(t[0]) then 0
    else
      var k := DigitRun(t[1..]);
      assert t[..k + 1] == [t[0]] + t[1..][..k];
      k + 1
  }

  function NineRun(t: string): (n: nat)
    ensures n <= |t| && forall i :: 0 <= i < n ==> t[i] == '9'
    ensures n < |t| ==> t[n] != '9'
  {
    if t == [] || t[0] != '9' then 0 else NineRun(t[1..]) + 1
  }

  function NonTerminatorRun(t: string): (n: nat)
    ensures n <= |t| && NoLineTerminator(t[..n])
    ensures n < |t| ==> IsLineTerminator(t[n])
  {
    if t == [] || IsLineTerminator(t[0]) then 0
    else
      var k := NonTerminatorRun(t[1..]);
      assert t[..k + 1] == [t[0]] + t[1..][..k];
      k + 1
  }

  lemma Assoc(x: string, y: string, z: string)
    ensures x + y + z == x + (y + z)
  {
  }

  /** A prefix of a run without line terminators is without them too, and splits the text. */
  lemma NonTerminatorPrefix(u: string, k: nat)
    requires 1 <= k <= NonTerminatorRun(u)
    ensures u[..k] != [] && NoLineTerminator(u[..k]) && u == u[..k] + u[k..]
  {
    var n := NonTerminatorRun(u);
    assert forall i :: 0 <= i < k ==> u[..k][i] == u[..n][i];
  }

  /**
   * A greedy quantifier with at least one repetition over a run of `max`
   * matching characters: the repetition counts `max`, `max - 1`, ..., 1 are
   * tried in that order, and the first one after which the rest of the
   * pattern (`accept`) matches is taken.
   */
  function GreedyRun(t: string, max: nat, accept: string -> bool): (r: Option<nat>)
    requires max <= |t|
    ensures r.Some? ==> 1 <= r.value <= max && accept(t[r.value..])
    ensures r.Some? ==> forall j {:trigger accept(t[j..])} :: r.value < j <= max ==> !accept(t[j..])
    ensures r.None? ==> forall j {:trigger accept(t[j..])} :: 1 <= j <= max ==> !accept(t[j..])
    decreases max
  {
    if max == 0 then None
    else if accept(t[max..]) then Some(max)
    else GreedyRun(t, max - 1, accept)
  }

  /** Alternative `key` of a disjunction matches at the start of `s` and the
      rest of the pattern matches what follows it. */
  predicate Fits(key: string, s: string, accept: (string, string) -> bool) {
    StartsWith(s, key) && accept(key, s[|key|..])
  }

  /**
   * A disjunction of literal alternatives `keys[0] | keys[1] | ...`: the
   * index of the first alternative, from the left, with which the whole
   * pattern matches.
   */
  function FirstKey(keys: seq<string>, s: string, accept: (string, string) -> bool): (r: Option<nat>)
    ensures r.Some? ==> r.value < |keys| && Fits(keys[r.value], s, accept)
    ensures r.Some? ==> forall j {:trigger Fits(keys[j], s, accept)} :: 0 <= j < r.value ==> !Fits(keys[j], s, accept)
    ensures r.None? ==> forall j {:trigger Fits(keys[j], s, accept)} :: 0 <= j < |keys| ==> !Fits(keys[j], s, accept)
  {
    FirstKeyFrom(keys, s, accept, 0)
  }

  /** The alternative chosen is the first one that fits. */
  lemma FirstKeyIs(keys: seq<string>, s: string, accept: (string, string) -> bool, i: nat)
    requires i < |keys| && Fits(keys[i], s, accept)
    requires forall j {:trigger Fits(keys[j], s, accept)} :: 0 <= j < i ==> !Fits(keys[j], s, accept)
    ensures FirstKey(keys, s, accept) == Some(i)
  {
  }

  /** The alternative chosen is the first whose key begins the text, when
      the rest of the pattern matches after it. */
  lemma FirstKeyByPrefix(keys: seq<string>, s: string, accept: (string, string) -> bool, i: nat)
    requires i < |keys| && StartsWith(s, keys[i]) && accept(keys[i], s[|keys[i]|..])
    requires forall j :: 0 <= j < i ==> !StartsWith(s, keys[j])
    ensures FirstKey(keys, s, accept) == Some(i)
  {
    FirstKeyIs(keys, s, accept, i);
  }

  function FirstKeyFrom(keys: seq<string>, s: string, accept: (string, string) -> bool, i: nat): (r: Option<nat>)
    requires i <= |keys|
    ensures r.Some? ==> i <= r.value < |keys| && Fits(keys[r.value], s, accept)
    ensures r.Some? ==> forall j {:trigger Fits(keys[j], s, accept)} :: i <= j < r.value ==> !Fits(keys[j], s, accept)
    ensures r.None? ==> forall j {:trigger Fits(keys[j], s, accept)} :: i <= j < |keys| ==> !Fits(keys[j], s, accept)
    decreases |keys| - i
  {
    if i == |keys| then None
    else if Fits(keys[i], s, accept) then Some(i)
    else FirstKeyFrom(keys, s, accept, i + 1)
  }

  /** JavaScript `s.substr(start, len)` for non-negative arguments. */
  function Substr(s: string, start: nat, len: nat): (r: string)
    ensures |r| == if start >= |s| then 0 else if start + len <= |s| then len else |s| - start
    ensures start + len <= |s| ==> r == s[start..start + len]
  {
    if start >= |s| then "" else if start + len <= |s| then s[start..start + len] else s[start..]
  }

  /** `sep` occurs in `s` at position `i`. */
  predicate OccursAt(s: string, sep: string, i: int) {
    0 <= i && i + |sep| <= |s| && s[i..i + |sep|] == sep
  }

  /** `sep` occurs somewhere in `s`. */
  ghost predicate Contains(s: string, sep: string) {
    exists i :: 0 <= i <= |s| && OccursAt(s, sep, i)
  }

  /**
   * JavaScript `s.split(sep)` for a non-empty separator: cut at every
   * occurrence of `sep`, searching from the left, occurrences not overlapping.
   */
  function Split(s: string, sep: string): (parts: seq<string>)
    requires sep != []
    ensures |parts| >= 1
    decreases |s|
  {
    if |s| < |sep| then [s]
    else if s[..|sep|] == sep then [""] + Split(s[|sep|..], sep)
    else
      var rest := Split(s[1..], sep);
      [[s[0]] + rest[0]] + rest[1..]
  }

  /** JavaScript `parts.join(sep)`. */
  function Join(parts: seq<string>, sep: string): string {
    if parts == [] then ""
    else if |parts| == 1 then parts[0]
    else parts[0] + sep + Join(parts[1..], sep)
  }

  /** Joining three parts puts the separator between each two. */
  lemma JoinThree(a: string, b: string, c: string, sep: string)
    ensures Join([a, b, c], sep) == a + sep + b + sep + c
  {
    assert [a, b, c][1..] == [b, c];
    assert [b, c][1..] == [c];
    assert Join([b, c], sep) == b + sep + c;
    assert Join([a, b, c], sep) == a + sep + (b + sep + c);
  }

  /** Number of occurrences of `sep` in `s`, counted from the left without overlap. */
  function Occurrences(s: string, sep: string): nat
    requires sep != []
    decreases |s|
  {
    if |s| < |sep| then 0
    else if s[..|sep|] == sep then 1 + Occurrences(s[|sep|..], sep)
    else Occurrences(s[1..], sep)
  }

  lemma {:induction false} SplitCount(s: string, sep: string)
    requires sep != []
    ensures |Split(s, sep)| == Occurrences(s, sep) + 1
    decreases |s|
  {
    if |s| < |sep| {
    } else if s[..|sep|] == sep {
      SplitCount(s[|sep|..], sep);
    } else {
      SplitCount(s[1..], sep);
    }
  }

  /** Joining the parts with the separator gives back the text. */
  lemma JoinCons(p: string, rest: seq<string>, sep: string)
    requires |rest| >= 1
    ensures Join([p] + rest, sep) == p + sep + Join(rest, sep)
  {
    assert ([p] + rest)[1..] == rest;
  }

  /** Adding a character to the first part adds it to the front of the joined text. */
  lemma JoinHeadExtend(c: char, rest: seq<string>, sep: string)
    requires |rest| >= 1
    ensures Join([[c] + rest[0]] + rest[1..], sep) == [c] + Join(rest, sep)
  {
    if |rest| > 1 {
      JoinCons([c] + rest[0], rest[1..], sep);
      JoinCons(rest[0], rest[1..], sep);
      assert [rest[0]] + rest[1..] == rest;
    }
  }

  lemma {:induction false} JoinSplit(s: string, sep: string)
    requires sep != []
    ensures Join(Split(s, sep), sep) == s
    decreases |s|
  {
    if |s| < |sep| {
    } else if s[..|sep|] == sep {
      var rest := Split(s[|sep|..], sep);
      JoinSplit(s[|sep|..], sep);
      assert Split(s, sep) == [""] + rest;
      JoinCons("", rest, sep);
      assert s == s[..|sep|] + s[|sep|..];
    } else {
      var rest := Split(s[1..], sep);
      JoinSplit(s[1..], sep);
      assert Split(s, sep) == [[s[0]] + rest[0]] + rest[1..];
      JoinHeadExtend(s[0], rest, sep);
      assert s == [s[0]] + s[1..];
    }
  }

  /** The first part always runs up to the first separator: it is a prefix of the text. */
  lemma {:induction false} SplitHeadPrefix(s: string, sep: string)
    requires sep != []
    ensures StartsWith(s, Split(s, sep)[0])
    decreases |s|
  {
    if |s| < |sep| {
    } else if s[..|sep|] == sep {
    } else {
      SplitHeadPrefix(s[1..], sep);
      var h := Split(s[1..], sep)[0];
      assert s[..|h| + 1] == [s[0]] + s[1..][..|h|];
    }
  }

  /** No part contains the separator. */
  lemma {:induction false} SplitPartsFree(s: string, sep: string)
    requires sep != []
    ensures forall k :: 0 <= k < |Split(s, sep)| ==> !Contains(Split(s, sep)[k], sep)
    decreases |s|
  {
    var parts := Split(s, sep);
    if |s| < |sep| {
      assert parts == [s];
    } else if s[..|sep|] == sep {
      SplitPartsFree(s[|sep|..], sep);
      assert !Contains("", sep);
      forall k | 0 <= k < |parts| ensures !Contains(parts[k], sep) {
        if k > 0 { assert parts[k] == Split(s[|sep|..], sep)[k - 1]; }
      }
    } else {
      var rest := Split(s[1..], sep);
      SplitPartsFree(s[1..], sep);
      SplitHeadPrefix(s[1..], sep);
      var h := [s[0]] + rest[0];
      assert StartsWith(s, h) by {
        assert s[..|h|] == [s[0]] + s[1..][..|rest[0]|];
      }
      assert !Contains(h, sep) by {
        if Contains(h, sep) {
          var i :| 0 <= i <= |h| && OccursAt(h, sep, i);
          assert 0 <= i && i + |sep| <= |h| && h[i..i + |sep|] == sep;
          if i != 0 {
            assert rest[0][i - 1..i - 1 + |sep|] == h[i..i + |sep|];
            assert OccursAt(rest[0], sep, i - 1);
            assert false;
          }
        }
      }
      forall k | 0 <= k < |parts| ensures !Contains(parts[k], sep) {
        if k > 0 { assert parts[k] == rest[k]; }
      }
    }
  }

  function DigitChar(d: nat): char
    requires d < 10
  {
    "0123456789"[d]
  }

  /** Decimal digits of `n`, without leading zeros. */
  function Digits(n: nat): (r: string)
    ensures |r| >= 1 && AllDigits(r)
  {
    if n < 10 then [DigitChar(n)] else Digits(n / 10) + [DigitChar(n % 10)]
  }

  /** The last `width` decimal digits of `n`, zero-padded. */
  function Fixed(n: nat, width: nat): (r: string)
    ensures |r| == width && AllDigits(r)
  {
    if width == 0 then "" else Fixed(n / 10, width - 1) + [DigitChar(n % 10)]
  }

  /** JavaScript `String(n)` for an integer `n`. */
  function DecimalString(n: int): string {
    if n < 0 then "-" + Digits(-n) else Digits(n)
  }

  /** Division by ten, given the quotient and the remainder. */
  lemma DivTen(n: nat, q: nat, r: nat)
    requires n == 10 * q + r && r < 10
    ensures n / 10 == q && n % 10 == r
  {
  }

  /** A number below ten written as a digit field of width one. */
  lemma FixedOne(d: nat)
    requires d < 10
    ensures Fixed(d, 1) == [DigitChar(d)]
  {
    DivTen(d, 0, d);
    assert Fixed(d, 1) == Fixed(0, 0) + [DigitChar(d)];
  }

  /** A number below a hundred written as a digit field of width two. */
  lemma FixedTwo(b: nat)
    requires b < 100
    ensures Fixed(b, 2) == [DigitChar(b / 10), DigitChar(b % 10)]
  {
    DivTen(b, b / 10, b % 10);
    assert Fixed(b, 2) == Fixed(b / 10, 1) + [DigitChar(b % 10)];
    FixedOne(b / 10);
  }

  /** Appending two decimal digits to a number appends them to its text. */
  lemma DigitsShift2(n: nat, a: nat, b: nat)
    requires 1 <= a && b < 100 && n == a * 100 + b
    ensures Digits(n) == Digits(a) + Fixed(b, 2)
  {
    var m := a * 10 + b / 10;
    DivTen(b, b / 10, b % 10);
    DivTen(n, m, b % 10);
    DivTen(m, a, b / 10);
    assert Digits(n) == Digits(m) + [DigitChar(b % 10)];
    assert Digits(m) == Digits(a) + [DigitChar(b / 10)];
    FixedTwo(b);
  }

  lemma DigitsTwo(n: nat)
    requires 10 <= n <= 99
    ensures Digits(n) == Fixed(n, 2)
  {
    DivTen(n, n / 10, n % 10);
    assert Digits(n / 10) == [DigitChar(n / 10)];
    assert Digits(n) == Digits(n / 10) + [DigitChar(n % 10)];
    FixedTwo(n);
  }

  lemma FixedFourSplit(y: nat)
    ensures Fixed(y, 4) == Fixed(y / 100, 2) + Fixed(y % 100, 2)
  {
    var t := y / 10;
    var lo := y % 100;
    DivTen(y, t, y % 10);
    DivTen(t, t / 10, t % 10);
    DivTen(lo, t % 10, y % 10);
    assert t / 10 == y / 100;
    assert Fixed(y, 4) == Fixed(t, 3) + [DigitChar(y % 10)];
    assert Fixed(t, 3) == Fixed(t / 10, 2) + [DigitChar(t % 10)];
    FixedTwo(lo);
  }

  /** A four-digit number is written with exactly its four digits. */
  lemma DigitsFour(y: nat)
    requires 1000 <= y <= 9999
    ensures Digits(y) == Fixed(y, 4)
  {
    var h, l := y / 100, y % 100;
    assert y == h * 100 + l && 10 <= h <= 99;
    DigitsShift2(y, h, l);
    DigitsTwo(h);
    FixedFourSplit(y);
  }

  /** The decimal text of `y * 10000 + m * 100 + d` for a four-digit `y`
      is `y`, `m` and `d` as fields of widths four, two and two. */
  lemma DigitsDate(y: nat, m: nat, d: nat)
    requires 1000 <= y <= 9999 && m < 100 && d < 100
    ensures Digits(y * 10000 + m * 100 + d) == Fixed(y, 4) + Fixed(m, 2) + Fixed(d, 2)
  {
    var ym := y * 100 + m;
    Shift100(y, m, d);
    DigitsShift2(y * 10000 + m * 100 + d, ym, d);
    DigitsShift2(ym, y, m);
    DigitsFour(y);
  }

  lemma Shift100(y: int, m: int, d: int)
    ensures (y * 100 + m) * 100 + d == y * 10000 + m * 100 + d
  {
  }

  /** The digits and the ISO text of 2024-01-15. */
  lemma FixedDateExample(y: nat, m: nat, d: nat)
    requires y == 2024 && m == 1 && d == 15
    ensures Fixed(y, 4) + Fixed(m, 2) + Fixed(d, 2) == "20240115"
    ensures Fixed(y, 4) + "-" + Fixed(m, 2) + "-" + Fixed(d, 2) == "2024-01-15"
  {
    FixedYear(y);
    FixedSmall(m, "01");
    FixedSmall(d, "15");
  }

  lemma FixedYear(y: nat)
    requires y == 2024
    ensures Fixed(y, 4) == "2024"
  {
    FixedFourSplit(y);
    FixedTwo(y / 100);
    FixedTwo(y % 100);
    assert y / 100 == 20 && y % 100 == 24;
  }

  /** A two-digit field spelled out. */
  lemma FixedSmall(n: nat, text: string)
    requires n < 100 && text == [DigitChar(n / 10), DigitChar(n % 10)]
    ensures Fixed(n, 2) == text
  {
    FixedTwo(n);
  }
}
