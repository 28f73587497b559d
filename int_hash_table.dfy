/**
 * The integer hash table that `Main` of LR_3/Program.cs builds: `M = 10`
 * buckets, each a list to which values are appended, `n = 7` values in
 * `[47000, 89000]` read from the console or drawn at random, the bucket of a
 * value being `value % M`, and a final membership search.
 *
 * The console and the random generator are inputs here: `inputs` holds what
 * `int.TryParse` made of each line typed (`None` where it failed) and
 * `randoms` the values `Random.Next` returned.
 */
module IntHashTable {
  import opened Basics

  /** How many values are inserted. */
  const N: nat := 7
  const LowerBound: int := 47000
  const UpperBound: int := 89000
  /** The number of buckets. */
  const M: nat := 10

  /**
   * `HashFunction(key, M)`: C#'s `key % M`, which truncates toward zero,
   * so a negative key gives a remainder that is negative or zero, where
   * the Euclidean remainder would be `m` more.
   */
  function HashFunction(key: int, m: int): (r: int)
    requires m > 0
    ensures key >= 0 ==> 0 <= r < m && r == key % m
    ensures key < 0 ==> -m < r <= 0
    ensures key < 0 ==> r == (if key % m == 0 then 0 else key % m - m)
  {
    if key >= 0 then key % m
    else
      TruncatedRemainder(-key, m);
      -((-key) % m)
  }

  lemma TruncatedRemainder(a: int, m: int)
    requires a >= 0 && m > 0
    ensures (-a) % m == (if a % m == 0 then 0 else m - a % m)
  {
    var q, s := a / m, a % m;
    assert a == q * m + s;
    if s == 0 {
      assert -a == (-q) * m + 0;
      RemainderUnique(-a, -q, 0, m);
    } else {
      assert -a == (-q - 1) * m + (m - s);
      RemainderUnique(-a, -q - 1, m - s, m);
    }
  }

  /** The Euclidean remainder is the only `r` in `[0, m)` with `x == q * m + r`. */
  lemma RemainderUnique(x: int, q: int, r: int, m: int)
    requires m > 0 && x == q * m + r && 0 <= r < m
    ensures x % m == r
  {
    var p := x / m;
    assert x == p * m + x % m;
    if q > p {
      MultipleAtLeast(q - p, m);
    } else if q < p {
      MultipleAtLeast(p - q, m);
    }
  }

  lemma MultipleAtLeast(k: int, m: int)
    requires k >= 1 && m > 0
    ensures k * m >= m
  {
    assert k * m == (k - 1) * m + m;
  }

  /**
   * What the validation loop accepts: a parsed integer within the bounds,
   * both inclusive. The loop asks again on a failed parse, a value below
   * the lower bound or a value above the upper bound.
   */
  predicate Accepted(input: Option<Int32>): (ok: bool)
    ensures input.None? ==> !ok
    ensures input.Some? && (input.value < LowerBound || input.value > UpperBound) ==> !ok
    ensures ok ==> InRange([input.value])
  {
    input.Some? && LowerBound <= input.value <= UpperBound
  }

  /** Every value lies within the bounds. */
  predicate InRange(values: seq<int>) {
    forall i :: 0 <= i < |values| ==> LowerBound <= values[i] <= UpperBound
  }

  /** The accepted values among `inputs`, in order. */
  function AcceptedValues(inputs: seq<Option<Int32>>): (vs: seq<int>)
    ensures InRange(vs)
  {
    if inputs == [] then []
    else
      var last := inputs[|inputs| - 1];
      AcceptedValues(inputs[..|inputs| - 1]) + if Accepted(last) then [last.value] else []
  }

  /**
   * The values manual entry inserts: the first `N` accepted inputs. When
   * the input runs out first the program asks again forever: `None`.
   */
  function ManualValues(inputs: seq<Option<Int32>>): (r: Option<seq<int>>)
    ensures r.Some? ==> |r.value| == N && InRange(r.value)
  {
    var vs := AcceptedValues(inputs);
    if |vs| >= N then Some(vs[..N]) else None
  }

  /** All buckets empty. */
  function EmptyTable(): (t: seq<seq<int>>)
    ensures |t| == M && forall i :: 0 <= i < M ==> t[i] == []
  {
    seq(M, _ => [])
  }

  predicate NonNegative(values: seq<int>) {
    forall i :: 0 <= i < |values| ==> values[i] >= 0
  }

  /** The table after appending `values`, in order, each to bucket `HashFunction(value, M)`. */
  function Distribute(values: seq<int>): (t: seq<seq<int>>)
    requires NonNegative(values)
    ensures |t| == M
    ensures forall i, x :: 0 <= i < M && x in t[i] ==> x in values && HashFunction(x, M) == i
  {
    if values == [] then EmptyTable()
    else
      var t := Distribute(values[..|values| - 1]);
      var v := values[|values| - 1];
      var h := HashFunction(v, M);
      assert values == values[..|values| - 1] + [v];
      t[h := t[h] + [v]]
  }

  /**
   * The inserted values that hash to bucket `i`, kept in insertion order: the
   * filter of `values` by bucket, so it does not depend on how the table was built.
   */
  function Bucket(values: seq<int>, i: int): seq<int>
    requires NonNegative(values)
  {
    if values == [] then []
    else
      var v := values[|values| - 1];
      Bucket(values[..|values| - 1], i) + if HashFunction(v, M) == i then [v] else []
  }

  /** Bucket `i` of the table holds exactly the values that hash to `i`, in the order they were inserted. */
  lemma {:induction false} DistributeBuckets(values: seq<int>, i: int)
    requires NonNegative(values) && 0 <= i < M
    ensures Distribute(values)[i] == Bucket(values, i)
  {
    if values != [] {
      DistributeBuckets(values[..|values| - 1], i);
    }
  }

  lemma {:induction false} InBucket(values: seq<int>, i: int, x: int)
    requires NonNegative(values)
    ensures x in Bucket(values, i) <==> x in values && HashFunction(x, M) == i
  {
    if values != [] {
      var p := values[..|values| - 1];
      InBucket(p, i, x);
      assert values == p + [values[|values| - 1]];
    }
  }

  /**
   * The search: for a non-negative value, it is in the bucket it hashes
   * to exactly when it is one of the inserted values.
   */
  lemma FoundIffInserted(values: seq<int>, s: int)
    requires NonNegative(values) && s >= 0
    ensures s in Distribute(values)[HashFunction(s, M)] <==> s in values
  {
    DistributeBuckets(values, HashFunction(s, M));
    InBucket(values, HashFunction(s, M), s);
  }

  /** The sum of the bucket lengths of `t[..k]`. */
  function Size(t: seq<seq<int>>, k: nat): nat
    requires k <= |t|
  {
    if k == 0 then 0 else Size(t, k - 1) + |t[k - 1]|
  }

  lemma {:induction false} SizeUpdate(t: seq<seq<int>>, h: nat, b: seq<int>, k: nat)
    requires h < |t| && k <= |t|
    ensures Size(t[h := b], k) == Size(t, k) - (if h < k then |t[h]| else 0) + (if h < k then |b| else 0)
  {
    if k > 0 {
      SizeUpdate(t, h, b, k - 1);
    }
  }

  lemma {:induction false} SizeEmpty(k: nat)
    requires k <= M
    ensures Size(EmptyTable(), k) == 0
  {
    if k > 0 {
      SizeEmpty(k - 1);
    }
  }

  /** The bucket lengths add up to the number of values inserted: nothing is lost or duplicated. */
  lemma {:induction false} TotalSize(values: seq<int>)
    requires NonNegative(values)
    ensures Size(Distribute(values), M) == |values|
  {
    if values == [] {
      SizeEmpty(M);
    } else {
      var t := Distribute(values[..|values| - 1]);
      var v := values[|values| - 1];
      var h := HashFunction(v, M);
      TotalSize(values[..|values| - 1]);
      SizeUpdate(t, h, t[h] + [v], M);
    }
  }

  /** What building the table ends with. */
  datatype Fill =
    | Filled(values: seq<int>)   // the values inserted, in order
    | InvalidChoice              // neither "1" nor "2": the program returns
    | InputExhausted             // manual entry ran out of input: the program asks again forever

  /** The buckets as the program creates them: `M` empty lists. */
  method NewTable() returns (t: array<seq<int>>)
    ensures fresh(t) && t[..] == EmptyTable()
  {
    t := new seq<int>[M];
    for i := 0 to M
      invariant forall j :: 0 <= j < i ==> t[j] == []
    {
      t[i] := [];
    }
  }

  /** `hashTable[HashFunction(value, M)].AddLast(value)`: only that bucket changes. */
  method AddLast(t: array<seq<int>>, value: int)
    requires t.Length == M && value >= 0
    modifies t
    ensures var h := HashFunction(value, M);
      t[..] == old(t[..])[h := old(t[h]) + [value]]
  {
    var hashIndex := HashFunction(value, M);
    t[hashIndex] := t[hashIndex] + [value];
  }

  /**
   * The validation loop: from `from` on, skip every input that does not
   * parse or lies outside the bounds. The answer is the slot of the first
   * accepted one, or `None` when none is left.
   */
  method ReadValue(inputs: seq<Option<Int32>>, from: nat) returns (at: Option<nat>)
    requires from <= |inputs|
    ensures at.Some? ==> from <= at.value < |inputs| && Accepted(inputs[at.value])
    ensures at.Some? ==> forall j :: from <= j < at.value ==> !Accepted(inputs[j])
    ensures at.None? ==> forall j :: from <= j < |inputs| ==> !Accepted(inputs[j])
  {
    var k := from;
    while k < |inputs| && !Accepted(inputs[k])
      invariant from <= k <= |inputs|
      invariant forall j :: from <= j < k ==> !Accepted(inputs[j])
    {
      k := k + 1;
    }
    at := if k < |inputs| then Some(k) else None;
  }

  lemma AcceptedStep(inputs: seq<Option<Int32>>, k: nat)
    requires k < |inputs|
    ensures AcceptedValues(inputs[..k + 1]) ==
      AcceptedValues(inputs[..k]) + if Accepted(inputs[k]) then [inputs[k].value] else []
  {
    assert inputs[..k + 1][..k] == inputs[..k];
  }

  /** Skipping rejected inputs adds no accepted value. */
  lemma {:induction false} SkipRejected(inputs: seq<Option<Int32>>, from: nat, upto: nat)
    requires from <= upto <= |inputs|
    requires forall j :: from <= j < upto ==> !Accepted(inputs[j])
    ensures AcceptedValues(inputs[..upto]) == AcceptedValues(inputs[..from])
    decreases upto
  {
    if from < upto {
      SkipRejected(inputs, from, upto - 1);
      AcceptedStep(inputs, upto - 1);
    }
  }

  /** A prefix of the input accepts a prefix of the accepted values. */
  lemma {:induction false} AcceptedPrefix(inputs: seq<Option<Int32>>, k: nat)
    requires k <= |inputs|
    ensures AcceptedValues(inputs[..k]) <= AcceptedValues(inputs)
    decreases |inputs| - k
  {
    if k < |inputs| {
      AcceptedPrefix(inputs, k + 1);
      AcceptedStep(inputs, k);
    } else {
      assert inputs[..k] == inputs;
    }
  }

  lemma DistributeStep(values: seq<int>, v: int)
    requires NonNegative(values) && v >= 0
    ensures NonNegative(values + [v])
    ensures var t := Distribute(values); var h := HashFunction(v, M);
      Distribute(values + [v]) == t[h := t[h] + [v]]
  {
    assert (values + [v])[..|values|] == values;
  }

  /** Manual entry: `N` times, read until an accepted value and append it. */
  method FillManual(t: array<seq<int>>, inputs: seq<Option<Int32>>) returns (r: Fill)
    requires t.Length == M && t[..] == EmptyTable()
    modifies t
    ensures r.Filled? || r.InputExhausted?
    ensures r.Filled? <==> ManualValues(inputs).Some?
    ensures r.Filled? ==> r.values == ManualValues(inputs).value
    ensures r.Filled? ==> NonNegative(r.values) && t[..] == Distribute(r.values)
  {
    var values: seq<int> := [];
    var pos: nat := 0;
    for i := 0 to N
      invariant pos <= |inputs| && values == AcceptedValues(inputs[..pos]) && |values| == i
      invariant NonNegative(values) && t[..] == Distribute(values)
    {
      var at := ReadValue(inputs, pos);
      if at.None? {
        Exhausted(inputs, pos);
        return InputExhausted;
      }
      var k := at.value;
      var inputValue := inputs[k].value;
      AcceptNext(inputs, pos, k);
      DistributeStep(values, inputValue);
      AddLast(t, inputValue);
      values, pos := values + [inputValue], k + 1;
    }
    Complete(inputs, pos);
    r := Filled(values);
  }

  lemma AcceptNext(inputs: seq<Option<Int32>>, pos: nat, k: nat)
    requires pos <= k < |inputs| && Accepted(inputs[k])
    requires forall j :: pos <= j < k ==> !Accepted(inputs[j])
    ensures AcceptedValues(inputs[..k + 1]) == AcceptedValues(inputs[..pos]) + [inputs[k].value]
  {
    SkipRejected(inputs, pos, k);
    AcceptedStep(inputs, k);
  }

  /** Fewer than `N` accepted values and nothing accepted after them: manual entry never completes. */
  lemma Exhausted(inputs: seq<Option<Int32>>, pos: nat)
    requires pos <= |inputs| && |AcceptedValues(inputs[..pos])| < N
    requires forall j :: pos <= j < |inputs| ==> !Accepted(inputs[j])
    ensures ManualValues(inputs).None?
  {
    SkipRejected(inputs, pos, |inputs|);
    assert inputs[..|inputs|] == inputs;
  }

  /** `N` values accepted from the first `pos` inputs: they are what manual entry inserts. */
  lemma Complete(inputs: seq<Option<Int32>>, pos: nat)
    requires pos <= |inputs| && |AcceptedValues(inputs[..pos])| == N
    ensures ManualValues(inputs) == Some(AcceptedValues(inputs[..pos]))
  {
    AcceptedPrefix(inputs, pos);
    assert AcceptedValues(inputs)[..N] == AcceptedValues(inputs[..pos]);
  }

  /** Automatic entry: append each of the `N` values drawn. */
  method FillRandom(t: array<seq<int>>, randoms: seq<int>) returns (r: Fill)
    requires t.Length == M && t[..] == EmptyTable()
    requires |randoms| == N && InRange(randoms)
    modifies t
    ensures r == Filled(randoms) && t[..] == Distribute(randoms)
  {
    for i := 0 to N
      invariant NonNegative(randoms[..i]) && t[..] == Distribute(randoms[..i])
    {
      var randomValue := randoms[i];
      DistributeStep(randoms[..i], randomValue);
      assert randoms[..i + 1] == randoms[..i] + [randomValue];
      AddLast(t, randomValue);
    }
    assert randoms[..N] == randoms;
    r := Filled(randoms);
  }

  /**
   * The part of `Main` that builds the table: choice "1" reads the values,
   * "2" draws them, anything else ends the program with the table empty.
   */
  method BuildTable(choice: string, inputs: seq<Option<Int32>>, randoms: seq<int>) returns (r: Fill, t: array<seq<int>>)
    requires choice == "2" ==> |randoms| == N && InRange(randoms)
    ensures fresh(t) && t.Length == M
    ensures r.InvalidChoice? <==> choice != "1" && choice != "2"
    ensures r.InvalidChoice? ==> t[..] == EmptyTable()
    ensures choice == "1" ==> (r.Filled? <==> ManualValues(inputs).Some?)
    ensures choice == "1" && r.Filled? ==> r.values == ManualValues(inputs).value
    ensures choice == "2" ==> r == Filled(randoms)
    ensures r.Filled? ==> |r.values| == N && InRange(r.values) && NonNegative(r.values)
    ensures r.Filled? ==> t[..] == Distribute(r.values)
  {
    t := NewTable();
    if choice == "1" {
      r := FillManual(t, inputs);
    } else if choice == "2" {
      r := FillRandom(t, randoms);
    } else {
      r := InvalidChoice;
    }
  }

  /**
   * What the search reports: whether the bucket holds the value, or that the
   * bucket index was negative, where the `List<T>` indexer throws
   * `ArgumentOutOfRangeException`.
   */
  datatype SearchResult = Found(found: bool) | OutOfRange

  /**
   * The search: the bucket `HashFunction(s, M)` is asked whether it holds
   * `s`. A negative bucket index makes the list indexer throw.
   */
  method Search(t: array<seq<int>>, s: Int32) returns (r: SearchResult)
    requires t.Length == M
    ensures r.OutOfRange? <==> HashFunction(s, M) < 0
    ensures r.Found? ==> (r.found <==> s in t[HashFunction(s, M)])
  {
    var searchIndex := HashFunction(s, M);
    if searchIndex < 0 {
      return OutOfRange;
    }
    r := Found(s in t[searchIndex]);
  }
}
