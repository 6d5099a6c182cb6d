/**
 * The substitution markup of the timetable service: a field of the form
 * `<span class="substMonitorSubstElem">CURRENT</span> (SUBST)` says that
 * CURRENT replaces the usual SUBST; `---` on either side means "none".
 * The matcher follows the regular expression
 * `^<span class="substMonitorSubstElem">(.+)<\/span> \((.+)\)$`
 * as an ECMAScript engine runs it.
 */
module Substitutions {
  import opened Wrappers
  import opened Text

  const OpenTag: string := "<span class=\"substMonitorSubstElem\">"
  const Separator: string := "</span> ("
  const Sentinel: string := "---"

  /** One slot of a substitution object: not set at all (`undefined`, left
      out when serialised), set to `null`, or holding a value. */
  datatype Slot<+T> = Absent | Null | Present(value: T)

  datatype Substitution<+T> = Substitution(current: Slot<T>, subst: Slot<T>)

  /** `s` is the markup with captures `a` and `b`, each non-empty and free of line terminators. */
  ghost predicate MarkupOf(s: string, a: string, b: string) {
    && s == OpenTag + a + Separator + b + ")"
    && a != [] && b != []
    && NoLineTerminator(a) && NoLineTerminator(b)
  }

  /** The pattern that follows the first capture: `<\/span> \((.+)\)$`,
      giving the second capture. */
  function MatchTail(t: string): (r: Option<string>)
  {
    if !StartsWith(t, Separator) then None
    else
      var u := t[|Separator|..];
      match GreedyRun(u, NonTerminatorRun(u), v => v == ")")
      case None => None
      case Some(k) => Some(u[..k])
  }

  lemma MatchTailSound(t: string)
    requires MatchTail(t).Some?
    ensures var b := MatchTail(t).value;
      t == Separator + b + ")" && b != [] && NoLineTerminator(b)
  {
    var u := t[|Separator|..];
    var k := GreedyRun(u, NonTerminatorRun(u), v => v == ")").value;
    assert u[..k] == u[..NonTerminatorRun(u)][..k];
    assert u == u[..k] + u[k..];
    assert t == t[..|Separator|] + u;
  }

  lemma MatchTailComplete(b: string)
    requires b != [] && NoLineTerminator(b)
    ensures MatchTail(Separator + b + ")") == Some(b)
  {
    var t := Separator + b + ")";
    var u := t[|Separator|..];
    assert u == b + ")";
    assert NoLineTerminator(u);
    var n := NonTerminatorRun(u);
    assert n == |u|;
    assert u[|b|..] == ")";
    var accept := v => v == ")";
    assert u[n..] == "" && !accept(u[n..]);
    assert accept(u[|b|..]);
    assert GreedyRun(u, n, accept) == GreedyRun(u, |b|, accept) == Some(|b|);
    assert u[..|b|] == b;
  }

  /** The whole pattern: the first capture is greedy, so it runs to the
      last separator after which the rest still matches. */
  function MatchSubstitution(s: string): (r: Option<(string, string)>)
  {
    if !StartsWith(s, OpenTag) then None
    else
      var u := s[|OpenTag|..];
      match GreedyRun(u, NonTerminatorRun(u), v => MatchTail(v).Some?)
      case None => None
      case Some(k) => Some((u[..k], MatchTail(u[k..]).value))
  }

  /** `isSubstitution`: the regular expression's `test`. */
  predicate IsSubstitution(s: string) {
    MatchSubstitution(s).Some?
  }

  /** The markup, assembled from a greedy first capture `u[..k]` and a matched tail. */
  lemma MarkupParts(s: string, u: string, k: nat, b: string)
    requires StartsWith(s, OpenTag) && u == s[|OpenTag|..]
    requires 1 <= k <= NonTerminatorRun(u)
    requires u[k..] == Separator + b + ")" && b != [] && NoLineTerminator(b)
    ensures MarkupOf(s, u[..k], b)
  {
    NonTerminatorPrefix(u, k);
    assert s == OpenTag + u;
  }

  /** Every match is a decomposition of the text into the markup and two captures. */
  lemma MatchSound(s: string)
    requires MatchSubstitution(s).Some?
    ensures MarkupOf(s, MatchSubstitution(s).value.0, MatchSubstitution(s).value.1)
  {
    var u := s[|OpenTag|..];
    var k := GreedyRun(u, NonTerminatorRun(u), v => MatchTail(v).Some?).value;
    MatchTailSound(u[k..]);
    MarkupParts(s, u, k, MatchTail(u[k..]).value);
  }

  lemma NoLineTerminatorConcat(x: string, y: string)
    requires NoLineTerminator(x) && NoLineTerminator(y)
    ensures NoLineTerminator(x + y)
  {
    forall i | 0 <= i < |x + y| ensures !IsLineTerminator((x + y)[i]) {
      if i >= |x| { assert (x + y)[i] == y[i - |x|]; }
    }
  }

  /** In the markup, the text after the tag has no line terminator and its
      tail after the first capture is the separator, the second capture and `)`. */
  lemma MarkupTail(s: string, a: string, b: string)
    requires MarkupOf(s, a, b)
    ensures StartsWith(s, OpenTag)
    ensures var u := s[|OpenTag|..];
      1 <= |a| <= NonTerminatorRun(u) && u[|a|..] == Separator + b + ")"
  {
    var u := s[|OpenTag|..];
    var tail := Separator + b + ")";
    assert u == a + tail;
    NoLineTerminatorConcat(Separator, b);
    NoLineTerminatorConcat(Separator + b, ")");
    NoLineTerminatorConcat(a, tail);
    assert u[|a|..] == tail;
  }

  /** Every decomposition is found, and the first capture found is at least
      as long as the one in any decomposition: it is the greedy one. */
  lemma MatchComplete(s: string, a: string, b: string)
    requires MarkupOf(s, a, b)
    ensures MatchSubstitution(s).Some?
    ensures |MatchSubstitution(s).value.0| >= |a|
  {
    MarkupTail(s, a, b);
    var u := s[|OpenTag|..];
    MatchTailComplete(b);
    var accept := v => MatchTail(v).Some?;
    assert accept(u[|a|..]);
  }

  /** Only the first character of the separator is `<`. */
  lemma SeparatorStartsOnce(d: nat)
    requires 1 <= d < |Separator|
    ensures Separator[d] != Separator[0]
  {
  }

  /** Two ways of writing `u` as `x + Separator + y + ")"` with a longer
      first part put a separator inside `y`. */
  lemma LongerSplitFindsSeparator(u: string, a: string, b: string, a': string, b': string)
    requires u == a + Separator + b + ")" && u == a' + Separator + b' + ")"
    requires |a'| > |a| && b' != []
    ensures Contains(b, Separator)
  {
    var p := |a'|;
    assert u[p..p + |Separator|] == Separator;
    assert p + |Separator| < |u|;
    if p < |a| + |Separator| {
      var d := p - |a|;
      assert u[|a|..|a| + |Separator|] == Separator;
      assert u[p] == Separator[d];
      assert u[p] == Separator[0];
      SeparatorStartsOnce(d);
      assert false;
    }
    var q := p - |a| - |Separator|;
    assert u[|a| + |Separator|..|u| - 1] == b;
    assert b[q..q + |Separator|] == u[p..p + |Separator|];
    assert OccursAt(b, Separator, q);
  }

  lemma SameLengthSameSplit(s: string, a: string, b: string, a': string, b': string)
    requires MarkupOf(s, a, b) && MarkupOf(s, a', b') && |a'| == |a|
    ensures a == a' && b == b'
  {
    var u := s[|OpenTag|..];
    assert u == a + Separator + b + ")";
    assert u == a' + Separator + b' + ")";
    assert a' == u[..|a|] == a;
    assert b' == u[|a| + |Separator|..|u| - 1] == b;
  }

  /** With no separator inside the second part, a decomposition whose first
      part is at least as long is the same decomposition. */
  lemma MarkupUnique(s: string, a: string, b: string, a': string, b': string)
    requires MarkupOf(s, a, b) && MarkupOf(s, a', b') && |a'| >= |a|
    requires !Contains(b, Separator)
    ensures a == a' && b == b'
  {
    if |a'| > |a| {
      var u := s[|OpenTag|..];
      assert u == a + Separator + b + ")";
      assert u == a' + Separator + b' + ")";
      LongerSplitFindsSeparator(u, a, b, a', b');
    }
    SameLengthSameSplit(s, a, b, a', b');
  }

  /** When the second capture holds no separator, the captures are exactly
      the two parts: the separator cannot overlap itself. */
  lemma MatchExact(s: string, a: string, b: string)
    requires MarkupOf(s, a, b) && !Contains(b, Separator)
    ensures MatchSubstitution(s) == Some((a, b))
  {
    MatchComplete(s, a, b);
    MatchSound(s);
    var m := MatchSubstitution(s).value;
    MarkupUnique(s, a, b, m.0, m.1);
  }

  /** `isSubstitution(s)` holds exactly when `s` has the markup form. */
  lemma IsSubstitutionExactly(s: string)
    ensures IsSubstitution(s) <==> exists a, b :: MarkupOf(s, a, b)
  {
    if IsSubstitution(s) {
      MatchSound(s);
    }
    if exists a, b :: MarkupOf(s, a, b) {
      var a, b :| MarkupOf(s, a, b);
      MatchComplete(s, a, b);
    }
  }

  /** A capture: the sentinel stands for no value, anything else is decoded. */
  function Capture(decode: string -> string, c: string): (r: Slot<string>)
    ensures r.Null? <==> c == Sentinel
    ensures r != Null ==> r == Present(decode(c))
  {
    if c == Sentinel then Null else Present(decode(c))
  }

  /**
   * `splitSubstitution`: outside the markup form the text comes back as
   * the current value, undecoded, with no substitute slot; inside it each
   * capture is read by `Capture`.
   */
  function SplitSubstitution(decode: string -> string, s: string): (r: Substitution<string>)
    ensures r.subst.Absent? <==> !IsSubstitution(s)
    ensures !IsSubstitution(s) ==> r.current == Present(s)
    ensures IsSubstitution(s) ==>
      var (a, b) := MatchSubstitution(s).value;
      && (r.current.Null? <==> a == Sentinel) && (r.subst.Null? <==> b == Sentinel)
      && (a != Sentinel ==> r.current == Present(decode(a)))
      && (b != Sentinel ==> r.subst == Present(decode(b)))
  {
    match MatchSubstitution(s)
    case None => Substitution(Present(s), Absent)
    case Some((a, b)) => Substitution(Capture(decode, a), Capture(decode, b))
  }

  /** `<span class="substMonitorSubstElem">B204</span> (---)`: the room B204
      replaces an unnamed one. */
  lemma ScenarioSubstNull(decode: string -> string)
    ensures SplitSubstitution(decode, OpenTag + "B204" + Separator + "---)")
      == Substitution(Present(decode("B204")), Null)
  {
    var s := OpenTag + "B204" + Separator + "---)";
    assert s == OpenTag + "B204" + Separator + Sentinel + ")";
    assert !Contains(Sentinel, Separator);
    MatchExact(s, "B204", Sentinel);
  }

  /** `<span class="substMonitorSubstElem">---</span> (A101)`: the lesson in A101 has no room. */
  lemma ScenarioCurrentNull(decode: string -> string)
    ensures SplitSubstitution(decode, OpenTag + "---" + Separator + "A101)")
      == Substitution(Null, Present(decode("A101")))
  {
    var s := OpenTag + "---" + Separator + "A101)";
    assert s == OpenTag + Sentinel + Separator + "A101" + ")";
    assert !Contains("A101", Separator);
    MatchExact(s, Sentinel, "A101");
  }
}
