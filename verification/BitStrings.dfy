/** Numbers written in base 2^w, most significant digit first: the unbounded
    bit string that regrouping cuts in two ways. */
module BitStrings {
  import opened Powers

  ghost predicate Digits(ws: seq<int>, w: nat) {
    forall i :: 0 <= i < |ws| ==> 0 <= ws[i] < Pow2(w)
  }

  function Val(ws: seq<int>, w: nat): int {
    if ws == [] then 0 else Val(ws[..|ws| - 1], w) * Pow2(w) + ws[|ws| - 1]
  }

  function ToBase(a: int, m: nat, w: nat): (r: seq<int>)
    ensures |r| == m
    decreases m, a
  {
    if m == 0 then [] else ToBase(a / Pow2(w), m - 1, w) + [a % Pow2(w)]
  }

  lemma {:induction false} ToBaseDigits(a: int, m: nat, w: nat)
    ensures Digits(ToBase(a, m, w), w)
    decreases m
  {
    if m > 0 { ToBaseDigits(a / Pow2(w), m - 1, w); }
  }

  lemma ValAppend(ws: seq<int>, x: int, w: nat)
    ensures Val(ws + [x], w) == Val(ws, w) * Pow2(w) + x
  {
    assert (ws + [x])[..|ws|] == ws;
  }

  lemma Pow2Step(m: nat, w: nat)
    requires m > 0
    ensures m * w >= w && Pow2(m * w) == Pow2((m - 1) * w) * Pow2(w)
  {
    ProductStep(m, w);
    Pow2Sum(m * w, (m - 1) * w, w);
  }

  lemma ProductStep(m: nat, w: nat)
    requires m > 0
    ensures m * w == (m - 1) * w + w && (m - 1) * w >= 0
  {
    MulNonNegative(m - 1, w);
  }

  lemma {:induction false} ValRange(ws: seq<int>, w: nat)
    requires Digits(ws, w)
    ensures |ws| * w >= 0 && 0 <= Val(ws, w) < Pow2(|ws| * w)
    decreases |ws|
  {
    if ws != [] {
      var init := ws[..|ws| - 1];
      ValRange(init, w);
      Pow2Step(|ws|, w);
      Bounded(Val(init, w), ws[|ws| - 1], Pow2(|init| * w), Pow2(w));
    }
  }

  lemma Bounded(a: int, x: int, q: int, p: int)
    requires 0 <= a < q && 0 <= x < p
    ensures 0 <= a * p + x < q * p
  {
    MulNonNegative(a, p);
    MulNonNegative(q - 1 - a, p);
    assert (q - 1 - a) * p == q * p - p - a * p;
  }

  // Writing a number in base 2^w and reading it back.
  lemma {:induction false} ValOfToBase(a: int, m: nat, w: nat)
    requires m * w >= 0 && 0 <= a < Pow2(m * w)
    ensures Val(ToBase(a, m, w), w) == a
    decreases m
  {
    if m > 0 {
      var p := Pow2(w);
      Pow2Step(m, w);
      assert a == (a / p) * p + a % p;
      QuotientBound(a, p, Pow2((m - 1) * w));
      MulNonNegative(m - 1, w);
      ValOfToBase(a / p, m - 1, w);
      ValAppend(ToBase(a / p, m - 1, w), a % p, w);
    } else {
      assert m * w == 0;
    }
  }

  lemma QuotientBound(a: int, p: int, q: int)
    requires p > 0 && 0 <= a < q * p
    ensures 0 <= a / p < q
  {
    var d := a / p;
    assert a == d * p + a % p;
    MultipleIsFar(d - q + 1, p);
    assert (d - q + 1) * p == d * p - q * p + p;
    MultipleIsFar(d, p);
  }

  // Reading digits and writing them back.
  lemma {:induction false} ToBaseOfVal(ws: seq<int>, w: nat)
    requires Digits(ws, w)
    ensures ToBase(Val(ws, w), |ws|, w) == ws
    decreases |ws|
  {
    if ws != [] {
      var init, x := ws[..|ws| - 1], ws[|ws| - 1];
      DivModUnique(Val(ws, w), Pow2(w), Val(init, w), x);
      ToBaseOfVal(init, w);
      assert ws == init + [x];
    }
  }

  // Equal length, digits and value make equal strings.
  lemma ValInjective(a: seq<int>, b: seq<int>, w: nat)
    requires Digits(a, w) && Digits(b, w) && |a| == |b| && Val(a, w) == Val(b, w)
    ensures a == b
  {
    ToBaseOfVal(a, w);
    ToBaseOfVal(b, w);
  }
}
