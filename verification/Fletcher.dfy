/** The Fletcher-32 checksum with reductions deferred to the end of each block. */
module Fletcher {
  import opened ByteString

  const MODULUS := 65535
  const BLOCK := 360

  type Word = w: int | 0 <= w < 65536

  /** Two running sums. */
  datatype Sums = Sums(c0: nat, c1: nat)

  /** The sums without any reduction. */
  function Plain(s: Sums, ds: seq<Word>): Sums
  {
    if ds == [] then s
    else
      var t := Plain(s, ds[..|ds| - 1]);
      Sums(t.c0 + ds[|ds| - 1], t.c1 + t.c0 + ds[|ds| - 1])
  }

  /** The definition of the checksum: both sums are reduced after every word. */
  function Reduced(s: Sums, ds: seq<Word>): Sums
  {
    if ds == [] then s
    else
      var t := Reduced(s, ds[..|ds| - 1]);
      var c0 := (t.c0 + ds[|ds| - 1]) % MODULUS;
      Sums(c0, (t.c1 + c0) % MODULUS)
  }

  function Mod(s: Sums): Sums
  {
    Sums(s.c0 % MODULUS, s.c1 % MODULUS)
  }

  function Checksum(ds: seq<Word>): nat
  {
    var s := Reduced(Sums(0, 0), ds);
    s.c1 * 65536 + s.c0
  }

  lemma {:induction false} ModAdd(a: nat, b: nat)
    ensures (a + b) % MODULUS == (a % MODULUS + b) % MODULUS
    ensures (a + b) % MODULUS == (a % MODULUS + b % MODULUS) % MODULUS
  {
  }

  /** One word, reduced before and after. */
  lemma {:induction false} LateWord(c0: nat, c1: nat, d: Word)
    ensures (c0 + d) % MODULUS == (c0 % MODULUS + d) % MODULUS
    ensures (c1 + c0 + d) % MODULUS == (c1 % MODULUS + (c0 % MODULUS + d) % MODULUS) % MODULUS
  {
    ModAdd(c0, d);
    ModAdd(c1, c0 + d);
  }

  /** Reducing late is reducing always. */
  lemma {:induction false} LateReduction(s: Sums, ds: seq<Word>)
    ensures Mod(Plain(s, ds)) == Reduced(Mod(s), ds)
    decreases |ds|
  {
    if ds != [] {
      LateReduction(s, ds[..|ds| - 1]);
      var t := Plain(s, ds[..|ds| - 1]);
      LateWord(t.c0, t.c1, ds[|ds| - 1]);
    }
  }

  lemma {:induction false} ReducedAppend(s: Sums, ds: seq<Word>, es: seq<Word>)
    ensures Reduced(s, ds + es) == Reduced(Reduced(s, ds), es)
    decreases |es|
  {
    if es == [] {
      assert ds + es == ds;
    } else {
      ReducedAppend(s, ds, es[..|es| - 1]);
      assert (ds + es)[..|ds + es| - 1] == ds + es[..|es| - 1];
    }
  }

  // ---------------------------------------------------------------------------------------
  // The two halves
  // ---------------------------------------------------------------------------------------

  function SumOf(ds: seq<Word>): nat
  {
    if ds == [] then 0 else ds[0] + SumOf(ds[1..])
  }

  /** Every word weighted by its distance from the end. */
  function WeightedSum(ds: seq<Word>): nat
  {
    if ds == [] then 0 else |ds| * ds[0] + WeightedSum(ds[1..])
  }

  lemma {:induction false} SumsSnoc(ds: seq<Word>, d: Word)
    ensures SumOf(ds + [d]) == SumOf(ds) + d
    ensures WeightedSum(ds + [d]) == WeightedSum(ds) + SumOf(ds) + d
    decreases |ds|
  {
    if ds == [] {
      assert ds + [d] == [d] && [d][1..] == [];
      assert SumOf([]) == 0 && WeightedSum([]) == 0;
    } else {
      SumsSnoc(ds[1..], d);
      assert (ds + [d])[1..] == ds[1..] + [d];
      assert (|ds| + 1) * ds[0] == |ds| * ds[0] + ds[0];
    }
  }

  lemma {:induction false} PlainIsSums(ds: seq<Word>)
    ensures Plain(Sums(0, 0), ds) == Sums(SumOf(ds), WeightedSum(ds))
    decreases |ds|
  {
    hide SumOf, WeightedSum;
    if ds == [] {
      NoSums();
    } else {
      var init := ds[..|ds| - 1];
      PlainIsSums(init);
      assert init + [ds[|ds| - 1]] == ds;
      SumsSnoc(init, ds[|ds| - 1]);
    }
  }

  lemma NoSums()
    ensures SumOf([]) == 0 && WeightedSum([]) == 0
  {
  }

  /** The low half is the sum of the words, the high half their weighted sum, both modulo 65535. */
  lemma {:induction false} ChecksumHalves(ds: seq<Word>)
    ensures Checksum(ds) % 65536 == SumOf(ds) % 65535
    ensures Checksum(ds) / 65536 == WeightedSum(ds) % 65535
  {
    hide Plain, Reduced, SumOf, WeightedSum;
    LateReduction(Sums(0, 0), ds);
    PlainIsSums(ds);
  }

  // ---------------------------------------------------------------------------------------
  // No overflow
  // ---------------------------------------------------------------------------------------

  /** The largest second sum after `k` words. */
  function Worst(k: nat): Sums
  {
    if k == 0 then Sums(MODULUS - 1, MODULUS - 1)
    else Sums(Worst(k - 1).c0 + 65535, Worst(k - 1).c1 + Worst(k - 1).c0 + 65535)
  }

  lemma {:induction false} WorstIs(k: nat)
    ensures Worst(k).c0 == 65534 + 65535 * k
    ensures 2 * Worst(k).c1 == 2 * 65534 * (k + 1) + 65535 * (k * (k + 1))
    decreases k
  {
    if k > 0 {
      WorstIs(k - 1);
      assert k * (k + 1) == (k - 1) * k + 2 * k;
    }
  }

  lemma {:induction false} WorstGrows(j: nat, k: nat)
    requires j <= k
    ensures Worst(j).c0 <= Worst(k).c0 && Worst(j).c1 <= Worst(k).c1
    decreases k
  {
    if j < k {
      WorstGrows(j, k - 1);
    }
  }

  lemma {:induction false} PlainBound(s: Sums, ds: seq<Word>)
    requires s.c0 < MODULUS && s.c1 < MODULUS
    ensures Plain(s, ds).c0 <= Worst(|ds|).c0 && Plain(s, ds).c1 <= Worst(|ds|).c1
    decreases |ds|
  {
    if ds != [] {
      PlainBound(s, ds[..|ds| - 1]);
    }
  }

  function Largest(k: nat): (ds: seq<Word>)
    ensures |ds| == k
  {
    seq(k, i => 65535)
  }

  /** The bound is attained. */
  lemma {:induction false} WorstIsAttained(k: nat)
    ensures Plain(Sums(MODULUS - 1, MODULUS - 1), Largest(k)) == Worst(k)
    decreases k
  {
    if k > 0 {
      WorstIsAttained(k - 1);
      assert Largest(k)[..k - 1] == Largest(k - 1);
    }
  }

  /** A block of 360 words never overflows 32 bits, and no larger block has this property. */
  lemma {:induction false} BlockIsLargest(k: nat)
    ensures k <= BLOCK <==>
            (forall s: Sums, ds: seq<Word> :: s.c0 < MODULUS && s.c1 < MODULUS && |ds| == k ==>
               Plain(s, ds).c0 < TWO32 && Plain(s, ds).c1 < TWO32)
  {
    hide Plain, Worst;
    WorstIs(BLOCK);
    WorstIs(BLOCK + 1);
    if k <= BLOCK {
      WorstGrows(k, BLOCK);
      forall s: Sums, ds: seq<Word> | s.c0 < MODULUS && s.c1 < MODULUS && |ds| == k
        ensures Plain(s, ds).c0 < TWO32 && Plain(s, ds).c1 < TWO32
      {
        PlainBound(s, ds);
      }
    } else {
      WorstGrows(BLOCK + 1, k);
      WorstIsAttained(k);
      assert |Largest(k)| == k;
    }
  }

  // ---------------------------------------------------------------------------------------
  // The checksum as it runs
  // ---------------------------------------------------------------------------------------

  /** Adds up to 360 words in 32-bit arithmetic, then reduces both sums. */
  method AddBlock(s: Sums, ds: seq<Word>) returns (r: Sums)
    requires s.c0 < MODULUS && s.c1 < MODULUS && |ds| <= BLOCK
    ensures r == Reduced(s, ds) && r.c0 < MODULUS && r.c1 < MODULUS
  {
    hide Reduced, Worst;
    var c0: nat, c1: nat := s.c0, s.c1;
    var i := 0;
    while i < |ds|
      invariant 0 <= i <= |ds|
      invariant Sums(c0, c1) == Plain(s, ds[..i])
    {
      ghost var done := ds[..i + 1];
      assert done[..i] == ds[..i];
      PlainBound(s, done);
      WorstGrows(i + 1, BLOCK);
      WorstIs(BLOCK);
      c0 := (c0 + ds[i]) % TWO32;
      c1 := (c1 + c0) % TWO32;
      i := i + 1;
    }
    assert ds[..i] == ds;
    LateReduction(s, ds);
    r := Sums(c0 % MODULUS, c1 % MODULUS);
  }

  /** The checksum of any number of words is the one that reduces at every step. */
  method Fletcher32(data: seq<Word>) returns (r: nat)
    ensures r == Checksum(data) && r < TWO32
    ensures r % 65536 == SumOf(data) % 65535 && r / 65536 == WeightedSum(data) % 65535
  {
    hide Reduced, SumOf, WeightedSum;
    ChecksumHalves(data);
    var s := Sums(0, 0);
    var pos := 0;
    EmptyReduced(s);
    while |data| - pos >= BLOCK
      invariant 0 <= pos <= |data|
      invariant s == Reduced(Sums(0, 0), data[..pos]) && s.c0 < MODULUS && s.c1 < MODULUS
    {
      ReducedAppend(Sums(0, 0), data[..pos], data[pos..pos + BLOCK]);
      assert data[..pos] + data[pos..pos + BLOCK] == data[..pos + BLOCK];
      s := AddBlock(s, data[pos..pos + BLOCK]);
      pos := pos + BLOCK;
    }
    ReducedAppend(Sums(0, 0), data[..pos], data[pos..]);
    assert data[..pos] + data[pos..] == data;
    s := AddBlock(s, data[pos..]);
    r := s.c1 * 65536 + s.c0;
  }

  lemma {:induction false} EmptyReduced(s: Sums)
    ensures Reduced(s, []) == s
  {
  }
}
