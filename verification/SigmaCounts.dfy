/** What counts over selections mean (the quantified atoms of _eval_condition in rangefinder/detect.py):
    which selections a target names, what a numeral asks for, and when a count holds. */
module SigmaCounts {
  import opened Prelude
  import opened Decimal
  import opened SigmaCondition

  // ---------------------------------------------------------------- numerals

  lemma {:induction false} NumeralIsRead(n: nat)
    ensures IsNumber(Numeral(n)) && ParseNat(Numeral(n)) == n
    decreases n
  {
    NumeralIsDigits(n);
    var s := Numeral(n);
    if n < 10 {
      assert s == [DigitChar(n)] && s[..0] == "";
    } else {
      NumeralIsRead(n / 10);
      assert s[..|s| - 1] == Numeral(n / 10);
    }
  }

  /** Zeros in front change nothing. */
  lemma {:induction false} ZeroInFront(s: string)
    requires IsNumber(s)
    ensures IsNumber("0" + s) && ParseNat("0" + s) == ParseNat(s)
    decreases |s|
  {
    var t, last := "0" + s, s[|s| - 1];
    forall i | 0 <= i < |t| ensures IsDigit(t[i]) { if i > 0 { assert t[i] == s[i - 1]; } }
    assert t[..|t| - 1] == "0" + s[..|s| - 1];
    if |s| > 1 {
      ZeroInFront(s[..|s| - 1]);
    } else {
      assert s[..0] == "" && "0" + "" == "0" && "0"[..0] == "";
    }
  }

  // ---------------------------------------------------------------- targets

  /** A piece without an asterisk matches itself, in place. */
  lemma {:induction false} GlobPlain(text: string, a: string, rest: string)
    requires '*' !in a
    ensures Glob(text, a + rest) <==> a <= text && Glob(text[if |a| <= |text| then |a| else |text|..], rest)
    decreases |a|
  {
    if a == "" {
      assert a + rest == rest && text[0..] == text;
    } else {
      assert (a + rest)[1..] == a[1..] + rest;
      if text != "" && text[0] == a[0] {
        GlobPlain(text[1..], a[1..], rest);
        assert a <= text <==> a[1..] <= text[1..];
        if |a| <= |text| { assert text[1..][|a| - 1..] == text[|a|..]; }
      }
    }
  }

  ghost predicate EndsGlobbed(text: string, k: nat, rest: string) {
    k <= |text| && Glob(text[k..], rest)
  }

  /** An asterisk stands for any text. */
  lemma {:induction false} GlobStar(text: string, rest: string)
    ensures Glob(text, "*" + rest) <==> exists k :: EndsGlobbed(text, k, rest)
    decreases |text|
  {
    var pattern := "*" + rest;
    assert pattern[1..] == rest && text[0..] == text;
    if Glob(text, rest) { assert EndsGlobbed(text, 0, rest); }
    if text != "" {
      GlobStar(text[1..], rest);
      if k: nat :| EndsGlobbed(text[1..], k, rest) {
        assert text[1..][k..] == text[k + 1..];
        assert EndsGlobbed(text, k + 1, rest);
      }
      if k: nat :| 0 < k && EndsGlobbed(text, k, rest) {
        assert text[1..][k - 1..] == text[k..];
        assert EndsGlobbed(text[1..], k - 1, rest);
      }
    }
  }

  lemma GlobEmpty(text: string)
    ensures Glob(text, "") <==> text == ""
  {}

  /** A target without an asterisk names only itself. */
  lemma PlainTargetNamesItself(text: string, target: string)
    requires '*' !in target
    ensures Glob(text, target) <==> text == target
  {
    assert target + "" == target;
    GlobPlain(text, target, "");
    if target <= text { GlobEmpty(text[|target|..]); }
  }

  /** After an asterisk, a piece without one stands at the end. */
  lemma StarThenPlain(text: string, b: string)
    requires '*' !in b
    ensures Glob(text, "*" + b) <==> EndsWith(text, b)
  {
    GlobStar(text, b);
    if k: nat :| EndsGlobbed(text, k, b) { PlainTargetNamesItself(text[k..], b); }
    if EndsWith(text, b) {
      var k := |text| - |b|;
      PlainTargetNamesItself(text[k..], b);
      assert EndsGlobbed(text, k, b);
    }
  }

  /** With one asterisk, everything that starts with what is before it and ends with what is after it, the
      two not overlapping. */
  lemma StarTargetNames(text: string, a: string, b: string)
    requires '*' !in a && '*' !in b
    ensures Glob(text, a + "*" + b) <==> |a| + |b| <= |text| && a <= text && EndsWith(text, b)
  {
    Associates(a, "*", b);
    GlobPlain(text, a, "*" + b);
    if a <= text {
      StarThenPlain(text[|a|..], b);
      EndsPast(text, |a|, b);
    }
  }

  lemma EndsPast(text: string, n: nat, b: string)
    requires n <= |text|
    ensures EndsWith(text[n..], b) <==> n + |b| <= |text| && EndsWith(text, b)
  {
    if n + |b| <= |text| { assert text[n..][|text| - n - |b|..] == text[|text| - |b|..]; }
  }

  // ---------------------------------------------------------------- counts

  /** The target names the selection: "them" names all. */
  ghost predicate IsNamed(target: string, n: string) {
    target == "them" || Glob(n, target)
  }

  /** Selections that matched, `k` of them, all of which the target names. */
  ghost predicate Hits(m: map<string, bool>, target: string, k: nat, some: set<string>) {
    |some| == k && forall n :: n in some ==> n in m && m[n] && IsNamed(target, n)
  }

  lemma HitsFit(small: set<string>, all: set<string>)
    requires small <= all
    ensures |small| <= |all| && (|small| == |all| ==> small == all)
  {
    assert all == small + (all - small);
    assert |all| == |small| + |all - small|;
  }

  lemma {:induction false} SomeOf(all: set<string>, k: nat) returns (some: set<string>)
    requires k <= |all|
    ensures some <= all && |some| == k
    decreases |all|
  {
    if k == |all| {
      some := all;
    } else {
      var x :| x in all;
      some := SomeOf(all - {x}, k);
    }
  }

  ghost predicate AllMatched(m: map<string, bool>, target: string) {
    forall n :: n in m && IsNamed(target, n) ==> m[n]
  }

  ghost predicate ManyMatched(m: map<string, bool>, target: string, k: nat) {
    exists some :: Hits(m, target, k, some)
  }

  lemma AllOfMeans(m: map<string, bool>, target: string)
    ensures CountHolds(m, None, target) <==> AllMatched(m, target)
  {
    var names, hits := NamesFor(m, target), HitsFor(m, target);
    assert forall n :: n in names <==> n in m && IsNamed(target, n);
    assert forall n :: n in hits <==> n in names && m[n];
    HitsFit(hits, names);
    if AllMatched(m, target) { assert hits == names; }
    if hits == names {
      forall n | n in m && IsNamed(target, n) ensures m[n] { assert n in hits; }
    }
  }

  lemma NumberOfMeans(m: map<string, bool>, target: string, k: nat)
    ensures CountHolds(m, Some(k), target) <==> ManyMatched(m, target, k)
  {
    var hits := HitsFor(m, target);
    assert forall n :: n in hits <==> n in m && m[n] && IsNamed(target, n);
    if |hits| >= k {
      var some := SomeOf(hits, k);
      assert Hits(m, target, k, some);
      assert ManyMatched(m, target, k);
    }
    if ManyMatched(m, target, k) {
      var some :| Hits(m, target, k, some);
      HitsFit(some, hits);
      assert |hits| >= k;
    }
    assert CountHolds(m, Some(k), target) <==> |hits| >= k;
  }

  /** "all of" holds when every selection that the target names matched, and a number when that many did. */
  lemma CountMeans(m: map<string, bool>, target: string, k: nat)
    ensures CountHolds(m, None, target) <==> AllMatched(m, target)
    ensures CountHolds(m, Some(k), target) <==> ManyMatched(m, target, k)
  {
    AllOfMeans(m, target);
    NumberOfMeans(m, target, k);
  }
}
