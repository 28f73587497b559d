/**
 * The file-backed dictionary of KR/Program.cs: a table of 100 buckets of
 * `Key`/`Value` entries, chosen by the key's hash code, that the program
 * saves as one `Key|Value` line per entry and loads back by splitting each
 * line on `|`.
 *
 * `string.GetHashCode` is a call into the runtime, so the dictionary is
 * given it as the function `hashCode`; nothing is assumed about it except
 * that it returns a 32-bit integer. `Math.Abs` of the least 32-bit integer
 * throws, so `Hash` may fail; an operation that hashes such a key ends with
 * `Overflow` instead of its result. The file itself is not modelled: saving
 * yields the lines written and loading takes the lines read.
 */
module HashDictionary {
  import opened Basics

  /** The number of buckets. */
  const TableSize: nat := 100

  /** What `Search` returns for a missing key or a null value. */
  const NotFound: string := "Не найдено"

  /** A `DictionaryEntry`. The key is never null; the value may be (`None`). */
  datatype Entry = Entry(key: string, value: Option<string>)

  /** The end of an operation: its result, or the `OverflowException` thrown by `Math.Abs`. */
  datatype Result<T> = Ok(value: T) | Overflow

  type Buckets = seq<seq<Entry>>

  // ---------------------------------------------------------------------
  // Hashing
  // ---------------------------------------------------------------------

  function Abs(x: int): nat {
    if x < 0 then -x else x
  }

  /**
   * `Hash(key)`: the absolute value of the hash code, modulo the table
   * size. It fails exactly when the hash code is the least 32-bit integer,
   * whose absolute value is not a 32-bit integer.
   */
  function Hash(hashCode: string -> Int32, key: string): (r: Option<nat>)
    ensures r.None? <==> hashCode(key) == Int32Min
    ensures r.Some? ==> r.value < TableSize
  {
    var h := hashCode(key);
    if h == Int32Min then None else Some(Abs(h) % TableSize)
  }

  /** Every entry lies in the bucket its key hashes to. */
  ghost predicate Placed(hashCode: string -> Int32, b: Buckets) {
    |b| == TableSize &&
    forall i, j :: 0 <= i < |b| && 0 <= j < |b[i]| ==> Hash(hashCode, b[i][j].key) == Some(i)
  }

  /** The table before anything is loaded: every bucket empty. */
  function EmptyBuckets(): (b: Buckets)
    ensures |b| == TableSize && forall i :: 0 <= i < |b| ==> b[i] == []
  {
    seq(TableSize, _ => [])
  }

  // ---------------------------------------------------------------------
  // One bucket
  // ---------------------------------------------------------------------

  /** The slot of the entry `FirstOrDefault(e => e.Key == key)` finds: the first with that key. */
  function FirstIndex(bucket: seq<Entry>, key: string): (r: Option<nat>)
    ensures r.Some? ==> r.value < |bucket| && bucket[r.value].key == key
    ensures r.Some? ==> forall j :: 0 <= j < r.value ==> bucket[j].key != key
    ensures r.None? ==> forall j :: 0 <= j < |bucket| ==> bucket[j].key != key
  {
    if bucket == [] then None
    else if bucket[0].key == key then Some(0)
    else match FirstIndex(bucket[1..], key)
      case None => None
      case Some(i) => Some(i + 1)
  }

  /** What `Search` answers from the bucket: the first match's value, or `NotFound` for none or a null value. */
  function Answer(bucket: seq<Entry>, key: string): (r: string)
    ensures (forall j :: 0 <= j < |bucket| ==> bucket[j].key != key) ==> r == NotFound
    ensures forall j :: 0 <= j < |bucket| && bucket[j].key == key && (forall k :: 0 <= k < j ==> bucket[k].key != key) ==>
      r == if bucket[j].value.Some? then bucket[j].value.value else NotFound
  {
    match FirstIndex(bucket, key)
    case None => NotFound
    case Some(i) => if bucket[i].value.Some? then bucket[i].value.value else NotFound
  }

  /** The bucket after `Delete`: without its first entry with that key, if it has one. */
  function Removed(bucket: seq<Entry>, key: string): (r: seq<Entry>)
    ensures FirstIndex(bucket, key).None? ==> r == bucket
    ensures FirstIndex(bucket, key).Some? ==>
      var i := FirstIndex(bucket, key).value;
      |r| == |bucket| - 1 && r[..i] == bucket[..i] && r[i..] == bucket[i + 1..]
    ensures multiset(r) <= multiset(bucket)
  {
    match FirstIndex(bucket, key)
    case None => bucket
    case Some(i) =>
      assert bucket == bucket[..i] + [bucket[i]] + bucket[i + 1..];
      bucket[..i] + bucket[i + 1..]
  }

  /** Appending an entry leaves the first match where it was, and makes the entry the match when there was none. */
  lemma {:induction false} FirstIndexAppend(bucket: seq<Entry>, e: Entry, key: string)
    ensures FirstIndex(bucket + [e], key) ==
      if FirstIndex(bucket, key).Some? then FirstIndex(bucket, key)
      else if e.key == key then Some(|bucket|)
      else None
  {
    if bucket != [] {
      assert (bucket + [e])[1..] == bucket[1..] + [e];
      FirstIndexAppend(bucket[1..], e, key);
    }
  }

  /**
   * `Insert(k, v)` then `Search(k)`: on a bucket without `k` the answer is
   * `v` (or `NotFound` when `v` is null); on a bucket that has `k` the
   * answer is the older value, because the new entry goes after it.
   */
  lemma SearchAfterInsert(bucket: seq<Entry>, key: string, value: Option<string>)
    ensures FirstIndex(bucket, key).None? ==>
      Answer(bucket + [Entry(key, value)], key) == if value.Some? then value.value else NotFound
    ensures FirstIndex(bucket, key).Some? ==>
      Answer(bucket + [Entry(key, value)], key) == Answer(bucket, key)
  {
    FirstIndexAppend(bucket, Entry(key, value), key);
    if FirstIndex(bucket, key).Some? {
      var i := FirstIndex(bucket, key).value;
      assert (bucket + [Entry(key, value)])[i] == bucket[i];
    }
  }

  /** `Delete(k)` undoes an `Insert(k, v)` made on a bucket without `k`. */
  lemma DeleteAfterInsert(bucket: seq<Entry>, key: string, value: Option<string>)
    requires FirstIndex(bucket, key).None?
    ensures Removed(bucket + [Entry(key, value)], key) == bucket
  {
    FirstIndexAppend(bucket, Entry(key, value), key);
    assert (bucket + [Entry(key, value)])[..|bucket|] == bucket;
  }

  /**
   * `Delete(k)` removes only the first entry with `k`: of two entries with
   * `k`, the later one is then the one `Search` finds.
   */
  lemma DeleteUncoversNext(bucket: seq<Entry>, key: string, first: Option<string>, second: Option<string>)
    requires FirstIndex(bucket, key).None?
    ensures Answer(Removed([Entry(key, first)] + bucket + [Entry(key, second)], key), key) ==
      if second.Some? then second.value else NotFound
  {
    var b := [Entry(key, first)] + bucket + [Entry(key, second)];
    assert b[0] == Entry(key, first);
    assert FirstIndex(b, key) == Some(0);
    assert b[..0] + b[1..] == bucket + [Entry(key, second)];
    SearchAfterInsert(bucket, key, second);
  }

  // ---------------------------------------------------------------------
  // The table
  // ---------------------------------------------------------------------

  /** `Insert(key, value)` on the buckets `b`: the entry goes at the end of bucket `Hash(key)`. */
  function Put(hashCode: string -> Int32, b: Buckets, e: Entry): (r: Result<Buckets>)
    requires |b| == TableSize
    ensures r.Overflow? <==> Hash(hashCode, e.key).None?
    ensures r.Ok? ==> |r.value| == TableSize
    ensures r.Ok? ==> Placed(hashCode, b) ==> Placed(hashCode, r.value)
  {
    match Hash(hashCode, e.key)
    case None => Overflow
    case Some(i) => Ok(b[i := b[i] + [e]])
  }

  // ---------------------------------------------------------------------
  // The line format
  // ---------------------------------------------------------------------

  /** How `{entry.Value}` prints: a null value prints nothing. */
  function ValueText(value: Option<string>): (r: string)
    ensures value.None? ==> r == ""
    ensures value.Some? ==> r == value.value
  {
    if value.Some? then value.value else ""
  }

  /** The line `SaveToFile` writes for an entry. */
  function FormatLine(e: Entry): (line: string)
    ensures |line| == |e.key| + 1 + |ValueText(e.value)|
    ensures line[..|e.key|] == e.key && line[|e.key|] == '|' && line[|e.key| + 1..] == ValueText(e.value)
    ensures Count(line, '|') == Count(e.key, '|') + 1 + Count(ValueText(e.value), '|')
  {
    CountJoin(e.key, "|", '|');
    CountJoin(e.key + "|", ValueText(e.value), '|');
    e.key + "|" + ValueText(e.value)
  }

  /** How many times `c` occurs in `s`. */
  function Count(s: string, c: char): nat {
    if s == [] then 0 else (if s[0] == c then 1 else 0) + Count(s[1..], c)
  }

  lemma {:induction false} CountZero(s: string, c: char)
    ensures Count(s, c) == 0 <==> c !in s
  {
    if s != [] {
      CountZero(s[1..], c);
      assert s == [s[0]] + s[1..];
    }
  }

  /** The parts of `parts` with `sep` between them: the inverse of `Split`. */
  function Join(parts: seq<string>, sep: char): string
    requires parts != []
  {
    if |parts| == 1 then parts[0] else parts[0] + [sep] + Join(parts[1..], sep)
  }

  /**
   * `s.Split(sep)`: the pieces between the occurrences of `sep`, empty
   * pieces included, so there is one more piece than there are separators.
   */
  function Split(s: string, sep: char): (parts: seq<string>)
    ensures |parts| == Count(s, sep) + 1
    ensures forall p :: p in parts ==> sep !in p
    ensures Join(parts, sep) == s
  {
    if s == [] then [""]
    else
      var rest := Split(s[1..], sep);
      if s[0] == sep then
        assert [s[0]] + s[1..] == s;
        [""] + rest
      else
        var r := [[s[0]] + rest[0]] + rest[1..];
        assert r[1..] == rest[1..];
        assert |rest| > 1 ==> rest == [rest[0]] + rest[1..];
        JoinHead(rest, s[0], sep);
        assert [s[0]] + s[1..] == s;
        r
  }

  lemma JoinHead(parts: seq<string>, c: char, sep: char)
    requires parts != []
    ensures Join([[c] + parts[0]] + parts[1..], sep) == [c] + Join(parts, sep)
  {
    var r := [[c] + parts[0]] + parts[1..];
    assert r[1..] == parts[1..];
  }

  /** Splitting a text with no separator gives the text alone. */
  lemma {:induction false} SplitNone(s: string, sep: char)
    requires sep !in s
    ensures Split(s, sep) == [s]
  {
    if s != [] {
      SplitNone(s[1..], sep);
    }
  }

  /** Splitting `a + [sep] + b` with no separator in `a` gives `a` and then the pieces of `b`. */
  lemma {:induction false} SplitAfter(a: string, b: string, sep: char)
    requires sep !in a
    ensures Split(a + [sep] + b, sep) == [a] + Split(b, sep)
  {
    if a == [] {
      assert ([] + [sep] + b)[1..] == b;
    } else {
      assert (a + [sep] + b)[1..] == a[1..] + [sep] + b;
      SplitAfter(a[1..], b, sep);
      assert [a[0]] + a[1..] == a;
    }
  }

  /** What `LoadFromFile` makes of a line: an entry when splitting on `|` gives exactly two parts. */
  function ParseLine(line: string): (r: Option<Entry>)
    ensures r.Some? <==> Count(line, '|') == 1
    ensures r.Some? ==> FormatLine(r.value) == line && r.value.value.Some?
  {
    var parts := Split(line, '|');
    if |parts| == 2 then
      assert parts[1..] == [parts[1]];
      assert Join(parts, '|') == parts[0] + ['|'] + parts[1];
      Some(Entry(parts[0], Some(parts[1])))
    else None
  }

  lemma {:induction false} CountJoin(a: string, b: string, c: char)
    ensures Count(a + b, c) == Count(a, c) + Count(b, c)
  {
    if a != [] {
      assert (a + b)[1..] == a[1..] + b;
      assert (a + b)[0] == a[0];
      assert Count(a + b, c) == (if a[0] == c then 1 else 0) + Count(a[1..] + b, c);
      CountJoin(a[1..], b, c);
    } else {
      assert a + b == b;
    }
  }

  /**
   * Saving and reloading one entry: the line reads back as the same key
   * and the printed value exactly when neither contains `|`; otherwise the
   * line is dropped. A null value reads back as the empty string.
   */
  lemma FormatThenParse(e: Entry)
    ensures ParseLine(FormatLine(e)) ==
      if '|' in e.key || '|' in ValueText(e.value) then None
      else Some(Entry(e.key, Some(ValueText(e.value))))
  {
    var v := ValueText(e.value);
    CountJoin(e.key + "|", v, '|');
    CountJoin(e.key, "|", '|');
    CountZero(e.key, '|');
    CountZero(v, '|');
    if '|' !in e.key && '|' !in v {
      SplitAfter(e.key, v, '|');
      SplitNone(v, '|');
    }
  }

  /** The lines written for the entries of one bucket, in order. */
  function Lines(es: seq<Entry>): (r: seq<string>)
    ensures |r| == |es| && forall j :: 0 <= j < |es| ==> r[j] == FormatLine(es[j])
  {
    seq(|es|, j requires 0 <= j < |es| => FormatLine(es[j]))
  }

  /** What `SaveToFile` writes: the lines of bucket 0, then of bucket 1, and so on. */
  function SaveLines(b: Buckets): (lines: seq<string>)
    ensures forall i, j :: 0 <= i < |b| && 0 <= j < |b[i]| ==> FormatLine(b[i][j]) in lines
    ensures forall line :: line in lines ==> exists i, j :: 0 <= i < |b| && 0 <= j < |b[i]| && line == FormatLine(b[i][j])
  {
    if b == [] then [] else SaveLines(b[..|b| - 1]) + Lines(b[|b| - 1])
  }

  /**
   * What `LoadFromFile` does to the buckets: each line that parses is
   * inserted, in order; the first overflow ends the load.
   */
  function LoadLines(hashCode: string -> Int32, b: Buckets, lines: seq<string>): (r: Result<Buckets>)
    requires |b| == TableSize
    ensures r.Ok? ==> |r.value| == TableSize
    decreases |lines|
  {
    if lines == [] then Ok(b)
    else match ParseLine(lines[0])
      case None => LoadLines(hashCode, b, lines[1..])
      case Some(e) =>
        match Put(hashCode, b, e)
        case Overflow => Overflow
        case Ok(b') => LoadLines(hashCode, b', lines[1..])
  }

  lemma {:induction false} LoadAppend(hashCode: string -> Int32, b: Buckets, xs: seq<string>, ys: seq<string>)
    requires |b| == TableSize
    ensures LoadLines(hashCode, b, xs + ys) ==
      match LoadLines(hashCode, b, xs)
      case Overflow => Overflow
      case Ok(b') => LoadLines(hashCode, b', ys)
    decreases |xs|
  {
    if xs != [] {
      assert (xs + ys)[1..] == xs[1..] + ys;
      assert (xs + ys)[0] == xs[0];
      match ParseLine(xs[0])
      case None => LoadAppend(hashCode, b, xs[1..], ys);
      case Some(e) =>
        match Put(hashCode, b, e)
        case Overflow =>
        case Ok(b') => LoadAppend(hashCode, b', xs[1..], ys);
    } else {
      assert xs + ys == ys;
    }
  }

  /**
   * An entry that survives saving and loading unchanged: no `|` in its key
   * or value, and a value that is not null. The file's split into lines is
   * not modelled (lines are given as a sequence), so a key or value with a
   * line break, which the file would read back as two lines, is not
   * excluded here; the round trip below is about the lines as written.
   */
  predicate Reloadable(e: Entry) {
    e.value.Some? && '|' !in e.key && '|' !in e.value.value
  }

  /** Loading the lines of entries that all hash to bucket `i` appends them to bucket `i`, in order. */
  lemma {:induction false} LoadBucket(hashCode: string -> Int32, b: Buckets, i: nat, es: seq<Entry>)
    requires |b| == TableSize && i < TableSize
    requires forall j :: 0 <= j < |es| ==> Hash(hashCode, es[j].key) == Some(i) && Reloadable(es[j])
    ensures LoadLines(hashCode, b, Lines(es)) == Ok(b[i := b[i] + es])
    decreases |es|
  {
    if es == [] {
      assert b[i] + es == b[i];
      assert b[i := b[i] + es] == b;
    } else {
      var e := es[0];
      var b' := b[i := b[i] + [e]];
      LoadFirst(hashCode, b, i, es);
      LoadBucket(hashCode, b', i, es[1..]);
      Appended(b, i, es);
    }
  }

  /** Loading the first line of such a bucket puts its entry at the end of bucket `i`. */
  lemma LoadFirst(hashCode: string -> Int32, b: Buckets, i: nat, es: seq<Entry>)
    requires |b| == TableSize && i < TableSize && es != []
    requires Hash(hashCode, es[0].key) == Some(i) && Reloadable(es[0])
    ensures LoadLines(hashCode, b, Lines(es)) == LoadLines(hashCode, b[i := b[i] + [es[0]]], Lines(es[1..]))
  {
    var e := es[0];
    FormatThenParse(e);
    assert ParseLine(Lines(es)[0]) == Some(e);
    assert Lines(es)[1..] == Lines(es[1..]);
    assert Put(hashCode, b, e) == Ok(b[i := b[i] + [e]]);
  }

  lemma Appended(b: Buckets, i: nat, es: seq<Entry>)
    requires i < |b| && es != []
    ensures var b' := b[i := b[i] + [es[0]]];
      b'[i := b'[i] + es[1..]] == b[i := b[i] + es]
  {
    assert b[i] + [es[0]] + es[1..] == b[i] + es by {
      assert [es[0]] + es[1..] == es;
    }
  }

  /**
   * Reloading what `SaveToFile` wrote, into a fresh table, gives back
   * every bucket with the same entries in the same order, when every
   * entry is `Reloadable` and lies in the bucket its key hashes to. The
   * lines are taken as written: for the file itself the keys and values
   * must also be free of line breaks.
   */
  lemma SaveThenLoad(hashCode: string -> Int32, b: Buckets)
    requires Placed(hashCode, b)
    requires forall i, j :: 0 <= i < |b| && 0 <= j < |b[i]| ==> Reloadable(b[i][j])
    ensures LoadLines(hashCode, EmptyBuckets(), SaveLines(b)) == Ok(b)
  {
    SaveThenLoadPrefix(hashCode, b, TableSize);
    assert b[..TableSize] == b;
    assert b[..TableSize] + EmptyBuckets()[TableSize..] == b;
  }

  lemma {:induction false} SaveThenLoadPrefix(hashCode: string -> Int32, b: Buckets, k: nat)
    requires Placed(hashCode, b) && k <= TableSize
    requires forall i, j :: 0 <= i < |b| && 0 <= j < |b[i]| ==> Reloadable(b[i][j])
    ensures LoadLines(hashCode, EmptyBuckets(), SaveLines(b[..k])) == Ok(b[..k] + EmptyBuckets()[k..])
  {
    var e := EmptyBuckets();
    if k == 0 {
      assert b[..0] == [] && SaveLines([]) == [];
      assert b[..0] + e[0..] == e;
    } else {
      SaveThenLoadPrefix(hashCode, b, k - 1);
      SaveLinesLast(b, k);
      LoadAppend(hashCode, e, SaveLines(b[..k - 1]), Lines(b[k - 1]));
      var mid := b[..k - 1] + e[k - 1..];
      assert |mid| == TableSize;
      LoadBucket(hashCode, mid, k - 1, b[k - 1]);
      NextPrefix(b, e, k);
    }
  }

  lemma SaveLinesLast(b: Buckets, k: nat)
    requires 0 < k <= |b|
    ensures SaveLines(b[..k]) == SaveLines(b[..k - 1]) + Lines(b[k - 1])
  {
    var p := b[..k];
    assert p[..k - 1] == b[..k - 1];
  }

  lemma NextPrefix(b: Buckets, e: Buckets, k: nat)
    requires 0 < k <= |b| == |e| && e[k - 1] == []
    ensures var mid := b[..k - 1] + e[k - 1..];
      mid[k - 1 := mid[k - 1] + b[k - 1]] == b[..k] + e[k..]
  {
    var mid := b[..k - 1] + e[k - 1..];
    assert mid[k - 1] == [];
    assert [] + b[k - 1] == b[k - 1];
  }

  // ---------------------------------------------------------------------
  // The dictionary object
  // ---------------------------------------------------------------------

  /** Finds the first entry of `bucket` with key `key`, scanning from the front. */
  method FirstOrDefault(bucket: seq<Entry>, key: string) returns (r: Option<nat>)
    ensures r == FirstIndex(bucket, key)
  {
    var i := 0;
    while i < |bucket| && bucket[i].key != key
      invariant 0 <= i <= |bucket|
      invariant forall j :: 0 <= j < i ==> bucket[j].key != key
    {
      i := i + 1;
    }
    r := if i < |bucket| then Some(i) else None;
    var f := FirstIndex(bucket, key);
    if f.Some? {
      assert f.value >= i;
    }
  }

  class HashFileDictionary {
    /** `string.GetHashCode`, as this process computes it. */
    const hashCode: string -> Int32
    /** `table`: one list of entries per bucket. */
    var table: array<seq<Entry>>

    ghost predicate Valid()
      reads this, table
    {
      Placed(hashCode, table[..])
    }

    /** The constructor before `LoadFromFile`: 100 empty buckets. */
    constructor (hashCode: string -> Int32)
      ensures Valid() && fresh(table) && this.hashCode == hashCode
      ensures table[..] == EmptyBuckets()
    {
      this.hashCode := hashCode;
      var t := new seq<Entry>[TableSize];
      for i := 0 to TableSize
        invariant forall j :: 0 <= j < i ==> t[j] == []
      {
        t[i] := [];
      }
      table := t;
    }

    /**
     * `Insert(key, value)`: a new entry at the end of bucket `Hash(key)`,
     * whether or not the key is already there; nothing else changes.
     */
    method Insert(key: string, value: Option<string>) returns (r: Result<()>)
      requires Valid()
      modifies table
      ensures Valid()
      ensures r.Overflow? <==> Hash(hashCode, key).None?
      ensures r.Overflow? ==> table[..] == old(table[..])
      ensures r.Ok? ==> var i := Hash(hashCode, key).value;
        table[..] == old(table[..])[i := old(table[i]) + [Entry(key, value)]]
    {
      var index := Hash(hashCode, key);
      if index.None? {
        return Overflow;
      }
      var i := index.value;
      table[i] := table[i] + [Entry(key, value)];
      r := Ok(());
    }

    /** `Search(key)`: the value of the first entry with that key in bucket `Hash(key)`, or `NotFound`. */
    method Search(key: string) returns (r: Result<string>)
      requires Valid()
      ensures r.Overflow? <==> Hash(hashCode, key).None?
      ensures r.Ok? ==> r.value == Answer(table[Hash(hashCode, key).value], key)
    {
      var index := Hash(hashCode, key);
      if index.None? {
        return Overflow;
      }
      var bucket := table[index.value];
      var found := FirstOrDefault(bucket, key);
      r := Ok(if found.Some? && bucket[found.value].value.Some? then bucket[found.value].value.value else NotFound);
    }

    /** `Delete(key)`: the first entry with that key in bucket `Hash(key)` is removed; a missing key changes nothing. */
    method Delete(key: string) returns (r: Result<()>)
      requires Valid()
      modifies table
      ensures Valid()
      ensures r.Overflow? <==> Hash(hashCode, key).None?
      ensures r.Overflow? ==> table[..] == old(table[..])
      ensures r.Ok? ==> var i := Hash(hashCode, key).value;
        table[..] == old(table[..])[i := Removed(old(table[i]), key)]
    {
      var index := Hash(hashCode, key);
      if index.None? {
        return Overflow;
      }
      var i := index.value;
      var found := FirstOrDefault(table[i], key);
      if found.Some? {
        var k := found.value;
        table[i] := table[i][..k] + table[i][k + 1..];
      }
      r := Ok(());
      RemovedPlaced(old(table[..]), i, key);
    }

    /** `SaveToFile`: the line of every entry, bucket by bucket, each bucket in order. */
    method SaveToFile() returns (lines: seq<string>)
      requires Valid()
      ensures lines == SaveLines(table[..])
    {
      lines := [];
      for i := 0 to table.Length
        invariant lines == SaveLines(table[..i])
      {
        var bucket := table[i];
        var written := [];
        for j := 0 to |bucket|
          invariant written == Lines(bucket[..j])
        {
          written := written + [FormatLine(bucket[j])];
          assert bucket[..j + 1][..j] == bucket[..j];
        }
        assert bucket[..|bucket|] == bucket;
        assert table[..i + 1][..i] == table[..i];
        lines := lines + written;
      }
      assert table[..table.Length] == table[..];
    }

    /**
     * `LoadFromFile`: when the file exists (`lines` is not `None`), every
     * line that splits into exactly two parts is inserted in turn. The load
     * ends at the first key whose hash overflows; what it has inserted by
     * then stays, but the constructor that called it throws.
     */
    method LoadFromFile(lines: Option<seq<string>>) returns (r: Result<()>)
      requires Valid()
      modifies table
      ensures Valid()
      ensures lines.None? ==> r.Ok? && table[..] == old(table[..])
      ensures lines.Some? ==> (r.Ok? <==> LoadLines(hashCode, old(table[..]), lines.value).Ok?)
      ensures lines.Some? && r.Ok? ==> table[..] == LoadLines(hashCode, old(table[..]), lines.value).value
    {
      r := Ok(());
      if lines.None? {
        return;
      }
      var all := lines.value;
      for n := 0 to |all|
        invariant Valid()
        invariant LoadLines(hashCode, old(table[..]), all) ==
          match LoadLines(hashCode, table[..], all[n..]) case Overflow => Overflow case Ok(b) => Ok(b)
      {
        var parsed := ParseLine(all[n]);
        assert all[n..][1..] == all[n + 1..];
        if parsed.Some? {
          var e := parsed.value;
          var done := Insert(e.key, e.value);
          if done.Overflow? {
            return Overflow;
          }
        }
      }
      assert all[|all|..] == [];
    }
  }

  /** Removing an entry keeps every other entry in its bucket. */
  lemma RemovedPlaced(b: Buckets, i: nat, key: string)
    requires |b| == TableSize && i < TableSize
    ensures forall j :: 0 <= j < |Removed(b[i], key)| ==> Removed(b[i], key)[j] in b[i]
  {
    var r := Removed(b[i], key);
    forall j | 0 <= j < |r|
      ensures r[j] in b[i]
    {
      assert r[j] in multiset(r);
    }
  }
}
