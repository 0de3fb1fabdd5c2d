/** Bitwise operations on natural numbers, and keys made of several words. */
module BitOps {
  import opened Bytes
  import opened Powers
  import opened RadixSorting

  function Or(a: nat, b: nat): nat {
    if a == 0 && b == 0 then 0 else 2 * Or(a / 2, b / 2) + if a % 2 == 1 || b % 2 == 1 then 1 else 0
  }

  function And(a: nat, b: nat): nat {
    if a == 0 || b == 0 then 0 else 2 * And(a / 2, b / 2) + if a % 2 == 1 && b % 2 == 1 then 1 else 0
  }

  lemma {:induction false} OrZero(a: nat)
    ensures Or(a, 0) == a
  {
    if a > 0 {
      OrZero(a / 2);
    }
  }

  lemma {:induction false} OrLow(b: nat)
    ensures Or(0, b) == b
  {
    if b > 0 {
      OrLow(b / 2);
    }
  }

  /** Bits below and above a position do not meet. */
  lemma {:induction false} OrDisjoint(h: nat, s: nat, low: nat)
    requires low < Pow2(s)
    ensures Or(h * Pow2(s), low) == h * Pow2(s) + low
    decreases s
  {
    if s == 0 {
      OrZero(h);
    } else if h * Pow2(s) == 0 {
      OrLow(low);
    } else {
      var p := Pow2(s - 1);
      Double(h, p);
      OrDisjoint(h, s - 1, low / 2);
    }
  }

  lemma Double(h: nat, p: nat)
    ensures h * (2 * p) == 2 * (h * p)
    ensures (h * (2 * p)) / 2 == h * p && (h * (2 * p)) % 2 == 0
  {
  }

  /** A mask of ones takes the remainder. */
  lemma {:induction false} AndMask(a: nat, w: nat)
    ensures And(a, Pow2(w) - 1) == a % Pow2(w)
    decreases w
  {
    if w > 0 {
      var p := Pow2(w - 1);
      AndMask(a / 2, w - 1);
      assert (2 * p - 1) / 2 == p - 1;
      HalfMod(a, p);
      if p == 1 && a > 0 {
        assert And(a, 1) == 2 * And(a / 2, 0) + a % 2;
      }
    }
  }

  lemma HalfMod(a: nat, p: nat)
    requires p >= 1
    ensures a % (2 * p) == 2 * ((a / 2) % p) + a % 2
  {
    var q, r := (a / 2) / p, (a / 2) % p;
    assert a / 2 == q * p + r;
    assert a == 2 * (a / 2) + a % 2;
    assert 2 * (q * p) == q * (2 * p);
    Remainder(a, 2 * p, q, 2 * r + a % 2);
  }

  // ---------------------------------------------------------------- words

  /** The number that words of `m` bytes spell, most significant first. */
  function Value(words: seq<nat>, m: nat): nat {
    if words == [] then 0 else Value(words[..|words| - 1], m) * Pow256(m) + words[|words| - 1]
  }

  ghost predicate WordsFit(words: seq<nat>, m: nat) {
    forall i | 0 <= i < |words| :: words[i] < Pow256(m)
  }

  lemma {:induction false} HighOfWords(a: nat, b: nat, m: nat, p: nat)
    requires p <= m
    ensures High(a * Pow256(m) + b, p) == a * Pow256(m - p) + High(b, p)
    decreases p
  {
    if p > 0 {
      HighOfWords(a, b, m, p - 1);
      assert Pow256(m - p + 1) == 256 * Pow256(m - p);
      DivideByte(a, Pow256(m - p), High(b, p - 1));
    }
  }

  lemma DivideByte(a: nat, q: nat, h: nat)
    ensures (a * (256 * q) + h) / 256 == a * q + h / 256
    ensures (a * (256 * q) + h) % 256 == h % 256
  {
    assert a * (256 * q) == 256 * (a * q);
  }

  lemma {:induction false} HighBeyond(a: nat, m: nat, p: nat)
    ensures High(a, m + p) == High(High(a, m), p)
    decreases p
  {
    if p > 0 {
      HighBeyond(a, m, p - 1);
    }
  }

  lemma {:induction false} HighOfNarrow(b: nat, m: nat)
    requires b < Pow256(m)
    ensures High(b, m) == 0
  {
    HighLow(b, m);
    NoMultiple(High(b, m), Pow256(m), Low(b, m));
  }

  /** A digit of the number is a digit of one of its words. */
  lemma {:induction false} DigitOfWords(words: seq<nat>, m: nat, pass: nat)
    requires WordsFit(words, m) && m >= 1 && pass < m * |words|
    ensures pass / m < |words|
    ensures Digit(Value(words, m), pass) == Digit(words[|words| - 1 - pass / m], pass % m)
    decreases |words|
  {
    var init, last := words[..|words| - 1], words[|words| - 1];
    var a := Value(init, m);
    WordIndex(pass, m, |words|);
    if pass < m {
      HighOfWords(a, last, m, pass);
      assert Pow256(m - pass) == 256 * Pow256(m - pass - 1);
      DivideByte(a, Pow256(m - pass - 1), High(last, pass));
    } else {
      HighOfWords(a, last, m, m);
      HighOfNarrow(last, m);
      assert a * Pow256(0) == a;
      HighBeyond(Value(words, m), m, pass - m);
      WordIndex(pass - m, m, |words| - 1);
      NextWord(pass, m);
      DigitOfWords(init, m, pass - m);
    }
  }

  lemma WordIndex(pass: nat, m: nat, n: nat)
    requires m >= 1 && pass < m * n
    ensures pass / m < n
    ensures pass < m ==> pass / m == 0 && pass % m == pass
    ensures pass >= m ==> n >= 1 && pass - m < m * (n - 1)
  {
    var q := pass / m;
    assert q * m <= pass;
    assert q >= n ==> q * m >= n * m;
    assert m * (n - 1) == m * n - m;
  }

  lemma NextWord(pass: nat, m: nat)
    requires m >= 1 && pass >= m
    ensures (pass - m) / m == pass / m - 1 && (pass - m) % m == pass % m
  {
    var q, r := pass / m, pass % m;
    assert pass == q * m + r;
    assert q >= 1;
    assert pass - m == (q - 1) * m + r;
    Remainder(pass - m, m, q - 1, r);
  }

  /** Comparing the words in order. */
  predicate WordsLess(a: seq<nat>, b: seq<nat>)
    requires |a| == |b|
  {
    a != [] && (WordsLess(a[..|a| - 1], b[..|b| - 1]) || (a[..|a| - 1] == b[..|b| - 1] && a[|a| - 1] < b[|b| - 1]))
  }

  /** Comparing word by word is comparing the numbers. */
  lemma {:induction false} WordOrder(a: seq<nat>, b: seq<nat>, m: nat)
    requires |a| == |b| && WordsFit(a, m) && WordsFit(b, m)
    ensures WordsLess(a, b) <==> Value(a, m) < Value(b, m)
    ensures a == b <==> Value(a, m) == Value(b, m)
    decreases |a|
  {
    if a != [] {
      var k := |a| - 1;
      WordOrder(a[..k], b[..k], m);
      CompareParts(Value(a[..k], m), a[k], Value(b[..k], m), b[k], Pow256(m));
      assert a == a[..k] + [a[k]] && b == b[..k] + [b[k]];
    }
  }

  lemma CompareParts(x: nat, v: nat, y: nat, u: nat, p: nat)
    requires v < p && u < p
    ensures x * p + v < y * p + u <==> x < y || (x == y && v < u)
    ensures x * p + v == y * p + u <==> x == y && v == u
  {
    assert x < y ==> (x + 1) * p <= y * p;
    assert y < x ==> (y + 1) * p <= x * p;
    assert (x + 1) * p == x * p + p && (y + 1) * p == y * p + p;
  }
}
