/**
 * The variable cache: a fixed number of buckets, each a singly linked chain
 * of (name, value) entries, indexed by the djb2 hash of the name. The value
 * type is opaque. Names are C strings: bytes 1..255, read through a signed
 * `char`, hashed in 64-bit `unsigned long` arithmetic.
 */
module HashMap {

  datatype Option<T> = None | Some(value: T)

  /** 2^64: `unsigned long` arithmetic wraps modulo this. */
  const ULONG_MOD: int := 0x1_0000_0000_0000_0000
  const DJB2_SEED: int := 5381

  /** A NUL-terminated C string's characters: every one is a byte other than 0. */
  predicate IsCString(s: string)
  {
    forall k :: 0 <= k < |s| ==> 0 < s[k] as int < 256
  }

  /** The value of a byte read through a signed `char`. */
  function SignedChar(c: char): (r: int)
    requires 0 < c as int < 256
    ensures -128 <= r < 128 && (r - c as int) % 256 == 0
  {
    if c as int < 128 then c as int else c as int - 256
  }

  /** One round of hash_djb2 as written: ((hash << 5) + hash) + c, each operation in `unsigned long`. */
  function Djb2Step(h: int, c: char): (r: int)
    requires 0 <= h < ULONG_MOD && 0 < c as int < 256
    ensures 0 <= r < ULONG_MOD
  {
    var shifted := (h * 32) % ULONG_MOD;
    var sum := (shifted + h) % ULONG_MOD;
    (sum + SignedChar(c) % ULONG_MOD) % ULONG_MOD
  }

  lemma ModAdd(a: int, b: int)
    ensures (a % ULONG_MOD + b) % ULONG_MOD == (a + b) % ULONG_MOD
  {
    var q, r := a / ULONG_MOD, a % ULONG_MOD;
    assert a == q * ULONG_MOD + r;
    var s, t := (r + b) / ULONG_MOD, (r + b) % ULONG_MOD;
    assert r + b == s * ULONG_MOD + t && 0 <= t < ULONG_MOD;
    assert a + b == (q + s) * ULONG_MOD + t;
  }

  /** The shift-and-add round is h * 33 + c reduced modulo 2^64. */
  lemma Djb2StepIsTimes33(h: int, c: char)
    requires 0 <= h < ULONG_MOD && 0 < c as int < 256
    ensures Djb2Step(h, c) == (h * 33 + SignedChar(c)) % ULONG_MOD
  {
    var x := SignedChar(c);
    ModAdd(h * 32, h);
    ModAdd(h * 32 + h, x % ULONG_MOD);
    ModAdd(x, h * 32 + h);
    assert (h * 32 + h + x % ULONG_MOD) % ULONG_MOD == (x % ULONG_MOD + (h * 32 + h)) % ULONG_MOD;
  }

  /** The hash of `s` continuing from the running value `h`. */
  function Djb2From(h: int, s: string): (r: int)
    requires 0 <= h < ULONG_MOD && IsCString(s)
    ensures 0 <= r < ULONG_MOD
    decreases s
  {
    if s == [] then h else Djb2From(Djb2Step(h, s[0]), s[1..])
  }

  function Djb2(s: string): (r: int)
    requires IsCString(s)
    ensures 0 <= r < ULONG_MOD
  {
    Djb2From(DJB2_SEED, s)
  }

  /** Hashing one more character is one more round on the hash so far. */
  lemma {:induction false} Djb2Snoc(h: int, s: string, c: char)
    requires 0 <= h < ULONG_MOD && IsCString(s) && 0 < c as int < 256
    ensures IsCString(s + [c])
    ensures Djb2From(h, s + [c]) == Djb2Step(Djb2From(h, s), c)
    decreases s
  {
    if s != [] {
      assert (s + [c])[1..] == s[1..] + [c];
      Djb2Snoc(Djb2Step(h, s[0]), s[1..], c);
    } else {
      assert (s + [c])[1..] == [];
    }
  }

  /** hash_djb2: starts at 5381 and runs one round per character. */
  method HashDjb2(str: string) returns (hash: int)
    requires IsCString(str)
    ensures hash == Djb2(str)
  {
    hash := DJB2_SEED;
    var k := 0;
    while k < |str|
      invariant 0 <= k <= |str|
      invariant hash == Djb2From(DJB2_SEED, str[..k])
    {
      Djb2Snoc(DJB2_SEED, str[..k], str[k]);
      assert str[..k + 1] == str[..k] + [str[k]];
      var c := str[k];
      hash := ((hash * 32) % ULONG_MOD + hash) % ULONG_MOD;
      hash := (hash + SignedChar(c) % ULONG_MOD) % ULONG_MOD;
      k := k + 1;
    }
    assert str[..k] == str;
  }

  /** hash: the djb2 value reduced modulo the table size, always a valid bucket. */
  function BucketIndex(key: string, size: int): (r: int)
    requires IsCString(key) && size > 0
    ensures 0 <= r < size
  {
    Djb2(key) % size
  }

  // ----------------------------------------------------------------- chains

  /** The position of the first entry with key `k`, or -1. */
  function FindKey<V>(chain: seq<(string, V)>, k: string): (r: int)
    ensures -1 <= r < |chain|
    ensures r >= 0 ==> chain[r].0 == k && forall j :: 0 <= j < r ==> chain[j].0 != k
    ensures r == -1 ==> forall j :: 0 <= j < |chain| ==> chain[j].0 != k
  {
    if chain == [] then -1
    else if chain[0].0 == k then 0
    else
      var i := FindKey(chain[1..], k);
      if i < 0 then -1 else i + 1
  }

  /** A first match is unique: any position with its properties is the one FindKey returns. */
  lemma FindKeyIsFirst<V>(chain: seq<(string, V)>, k: string, r: int)
    requires -1 <= r < |chain|
    requires r >= 0 ==> chain[r].0 == k && forall j :: 0 <= j < r ==> chain[j].0 != k
    requires r == -1 ==> forall j :: 0 <= j < |chain| ==> chain[j].0 != k
    ensures FindKey(chain, k) == r
  {
    var f := FindKey(chain, k);
    if f >= 0 && r >= 0 {
      assert !(f < r) && !(r < f);
    }
  }

  function Lookup<V>(chain: seq<(string, V)>, k: string): Option<V>
  {
    var i := FindKey(chain, k);
    if i >= 0 then Some(chain[i].1) else None
  }

  predicate UniqueKeys<V>(chain: seq<(string, V)>)
  {
    forall i, j :: 0 <= i < j < |chain| ==> chain[i].0 != chain[j].0
  }

  /** insert_HashMap on one chain: overwrite the value of an entry with key `k`, or prepend a new entry. */
  function InsertChain<V>(chain: seq<(string, V)>, k: string, v: V): seq<(string, V)>
  {
    var i := FindKey(chain, k);
    if i >= 0 then chain[i := (k, v)] else [(k, v)] + chain
  }

  /** After inserting, the key finds the new value and every other key finds what it found before. */
  lemma LookupInsertChain<V>(chain: seq<(string, V)>, k: string, v: V, k2: string)
    ensures Lookup(InsertChain(chain, k, v), k2) == if k2 == k then Some(v) else Lookup(chain, k2)
  {
    var c := InsertChain(chain, k, v);
    var i := FindKey(chain, k);
    var i2 := FindKey(chain, k2);
    if i >= 0 {
      if k2 == k {
        FindKeyIsFirst(c, k2, i);
      } else {
        FindKeyIsFirst(c, k2, i2);
      }
    } else {
      if k2 == k {
        FindKeyIsFirst(c, k2, 0);
      } else {
        FindKeyIsFirst(c, k2, if i2 < 0 then -1 else i2 + 1);
      }
    }
  }

  /** Inserting keeps keys unique, and grows the chain by one exactly when the key was absent. */
  lemma InsertChainShape<V>(chain: seq<(string, V)>, k: string, v: V)
    requires UniqueKeys(chain)
    ensures UniqueKeys(InsertChain(chain, k, v))
    ensures |InsertChain(chain, k, v)| == |chain| + (if Lookup(chain, k).None? then 1 else 0)
    ensures Lookup(chain, k).None? ==> InsertChain(chain, k, v)[1..] == chain
  {
    var c := InsertChain(chain, k, v);
    if FindKey(chain, k) < 0 {
      assert c[1..] == chain;
      forall i, j | 0 <= i < j < |c|
        ensures c[i].0 != c[j].0
      {
        if i > 0 {
          assert c[i] == chain[i - 1] && c[j] == chain[j - 1];
        }
      }
    }
  }

  // ---------------------------------------------------------------- buckets

  /** The value the map holds for `k`: the lookup in the bucket `k` hashes to. */
  function Find<V>(buckets: seq<seq<(string, V)>>, k: string): Option<V>
    requires |buckets| > 0 && IsCString(k)
  {
    Lookup(buckets[BucketIndex(k, |buckets|)], k)
  }

  /** insert_HashMap on the bucket contents: only the bucket of `k` changes. */
  function InsertBuckets<V>(buckets: seq<seq<(string, V)>>, k: string, v: V): (r: seq<seq<(string, V)>>)
    requires |buckets| > 0 && IsCString(k)
    ensures |r| == |buckets|
    ensures forall b :: 0 <= b < |buckets| && b != BucketIndex(k, |buckets|) ==> r[b] == buckets[b]
  {
    var i := BucketIndex(k, |buckets|);
    buckets[i := InsertChain(buckets[i], k, v)]
  }

  /** After an insert, the key maps to the new value and every other key keeps its value. */
  lemma FindInsert<V>(buckets: seq<seq<(string, V)>>, k: string, v: V, k2: string)
    requires |buckets| > 0 && IsCString(k) && IsCString(k2)
    ensures Find(InsertBuckets(buckets, k, v), k2) == if k2 == k then Some(v) else Find(buckets, k2)
  {
    var i, i2 := BucketIndex(k, |buckets|), BucketIndex(k2, |buckets|);
    if i == i2 {
      LookupInsertChain(buckets[i], k, v, k2);
    }
  }

  /** The map's invariant on its contents: no key twice in a bucket, and every key in the bucket it hashes to. */
  predicate Keyed<V>(buckets: seq<seq<(string, V)>>)
  {
    forall b :: 0 <= b < |buckets| ==>
      UniqueKeys(buckets[b]) &&
      forall k :: 0 <= k < |buckets[b]| ==>
        IsCString(buckets[b][k].0) && BucketIndex(buckets[b][k].0, |buckets|) == b
  }

  /** Inserting keeps every key unique within its bucket and in the bucket it hashes to. */
  lemma InsertKeepsKeyed<V>(buckets: seq<seq<(string, V)>>, k: string, v: V)
    requires |buckets| > 0 && IsCString(k) && Keyed(buckets)
    ensures Keyed(InsertBuckets(buckets, k, v))
  {
    var i := BucketIndex(k, |buckets|);
    var r := InsertBuckets(buckets, k, v);
    var c := buckets[i];
    InsertChainShape(c, k, v);
    assert r[i] == InsertChain(c, k, v);
    forall j | 0 <= j < |r[i]|
      ensures IsCString(r[i][j].0) && BucketIndex(r[i][j].0, |buckets|) == i
    {
      var f := FindKey(c, k);
      if f < 0 && j > 0 {
        assert r[i][j] == c[j - 1];
      } else if f >= 0 && j != f {
        assert r[i][j] == c[j];
      }
    }
  }

  // ---------------------------------------------------------------- objects

  class HashEntry<V> {
    var key: string
    var value: V
    var next: HashEntry?<V>

    /** create_HashEntry: copies the key, stores the value, no successor. */
    constructor (key: string, value: V)
      ensures this.key == key && this.value == value && next == null
    {
      this.key := key;
      this.value := value;
      next := null;
    }
  }

  function Head<V>(chain: seq<HashEntry<V>>): HashEntry?<V>
  {
    if chain == [] then null else chain[0]
  }

  /** The successor the `next` field of the `k`-th entry of a chain must hold. */
  function NextOf<V>(chain: seq<HashEntry<V>>, k: int): HashEntry?<V>
    requires 0 <= k < |chain|
  {
    if k + 1 < |chain| then chain[k + 1] else null
  }

  /** Every entry is in `repr`, and `slot` records its bucket and its distance from the end of its chain. */
  ghost predicate Placed<V>(chains: seq<seq<HashEntry<V>>>, slot: map<HashEntry<V>, (int, int)>, repr: set<object>)
  {
    forall b, k :: 0 <= b < |chains| && 0 <= k < |chains[b]| ==>
      chains[b][k] in repr && chains[b][k] in slot && slot[chains[b][k]] == (b, |chains[b]| - 1 - k)
  }

  /** Putting an entry not yet in `repr` at the head of a chain keeps every entry placed. */
  lemma PlacedPush<V>(chains: seq<seq<HashEntry<V>>>, slot: map<HashEntry<V>, (int, int)>, repr: set<object>,
                      index: int, n: HashEntry<V>)
    requires Placed(chains, slot, repr) && 0 <= index < |chains| && n !in repr
    ensures Placed(chains[index := [n] + chains[index]], slot[n := (index, |chains[index]|)], repr + {n})
  {
    var c := chains[index := [n] + chains[index]];
    forall b, k | 0 <= b < |c| && 0 <= k < |c[b]| && (b != index || k != 0)
      ensures c[b][k] in repr && c[b][k] != n
    {
      var k0 := if b == index then k - 1 else k;
      assert c[b][k] == chains[b][k0];
    }
  }

  class HashMap<V> {
    var size: int
    var table: array<HashEntry?<V>>

    /** The entries of each bucket in chain order, and their (key, value) pairs. */
    ghost var chains: seq<seq<HashEntry<V>>>
    ghost var Contents: seq<seq<(string, V)>>
    /**
     * Each entry's bucket and its distance from the end of its chain (which
     * prepending leaves alone); being a map, it makes the entries pairwise distinct.
     */
    ghost var slot: map<HashEntry<V>, (int, int)>
    ghost var Repr: set<object>

    ghost predicate Valid()
      reads this, Repr
    {
      this in Repr && table in Repr &&
      table.Length == size && |chains| == size && |Contents| == size &&
      Placed(chains, slot, Repr) && Keyed(Contents) &&
      (forall b :: 0 <= b < size ==> table[b] == Head(chains[b]) && |Contents[b]| == |chains[b]|) &&
      (forall b, k {:trigger chains[b][k].next} :: 0 <= b < size && 0 <= k < |chains[b]| ==>
         chains[b][k].next == NextOf(chains[b], k)) &&
      (forall b, k :: 0 <= b < size && 0 <= k < |chains[b]| ==>
         Contents[b][k] == (chains[b][k].key, chains[b][k].value))
    }

    /** create_HashMap: `size` buckets, all empty. */
    constructor (size: int)
      requires size >= 0
      ensures Valid() && fresh(Repr)
      ensures this.size == size && Contents == seq(size, _ => [])
    {
      this.size := size;
      var t := new HashEntry?<V>[size];
      var i := 0;
      while i < size
        invariant 0 <= i <= size
        invariant forall j :: 0 <= j < i ==> t[j] == null
      {
        t[i] := null;
        i := i + 1;
      }
      table := t;
      chains := seq(size, _ => []);
      Contents := seq(size, _ => []);
      slot := map[];
      Repr := {this, t};
    }

    /** hash: the bucket `str` belongs to. */
    method Hash(str: string) returns (index: int)
      requires size > 0 && IsCString(str)
      ensures index == BucketIndex(str, size)
    {
      var h := HashDjb2(str);
      index := h % size;
    }

    /**
     * insert_HashMap: walks the bucket's chain; an entry with the same key
     * gets the new value, otherwise a new entry goes in front of the chain.
     */
    method Insert(name: string, node: V)
      requires Valid() && size > 0 && IsCString(name)
      modifies Repr
      ensures Valid() && fresh(Repr - old(Repr)) && size == old(size)
      ensures Contents == InsertBuckets(old(Contents), name, node)
    {
      var index := Hash(name);
      InsertKeepsKeyed(Contents, name, node);
      ghost var expected := InsertBuckets(Contents, name, node);
      var tmp := table[index];
      ghost var j := 0;
      while tmp != null && tmp.key != name
        invariant 0 <= j <= |chains[index]|
        invariant tmp == (if j < |chains[index]| then chains[index][j] else null)
        invariant forall k :: 0 <= k < j ==> Contents[index][k].0 != name
        decreases |chains[index]| - j
      {
        tmp := tmp.next;
        j := j + 1;
      }
      if tmp != null {
        FindKeyIsFirst(Contents[index], name, j);
        assert expected == Contents[index := Contents[index][j := (name, node)]];
        SetValue(tmp, index, j, node);
        assert Contents == expected;
      } else {
        FindKeyIsFirst(Contents[index], name, -1);
        assert expected == Contents[index := [(name, node)] + Contents[index]];
        PushFront(index, name, node);
        assert Contents == expected;
      }
    }

    /** The existing-key case of insert_HashMap: the `j`-th entry of bucket `index` gets the new value. */
    method SetValue(e: HashEntry<V>, ghost index: int, ghost j: int, node: V)
      requires Valid() && 0 <= index < size && 0 <= j < |chains[index]| && e == chains[index][j]
      requires Keyed(Contents[index := Contents[index][j := (e.key, node)]])
      modifies this, e
      ensures Valid() && Repr == old(Repr) && size == old(size)
      ensures e.key == old(e.key)
      ensures Contents == old(Contents)[index := old(Contents)[index][j := (e.key, node)]]
    {
      e.value := node;
      Contents := Contents[index := Contents[index][j := (e.key, node)]];
      forall b, k | 0 <= b < size && 0 <= k < |chains[b]|
        ensures Contents[b][k] == (chains[b][k].key, chains[b][k].value)
      {
        if b != index || k != j {
          assert slot[chains[b][k]] != slot[e];
        }
      }
    }

    /** The new-key case of insert_HashMap: a fresh entry becomes the head of bucket `index`. */
    method PushFront(index: int, name: string, node: V)
      requires Valid() && 0 <= index < size
      requires Keyed(Contents[index := [(name, node)] + Contents[index]])
      modifies Repr
      ensures Valid() && fresh(Repr - old(Repr)) && size == old(size)
      ensures Contents == old(Contents)[index := [(name, node)] + old(Contents)[index]]
    {
      ghost var oldChains: seq<seq<HashEntry<V>>> := chains;
      ghost var oldContents: seq<seq<(string, V)>> := Contents;
      label L:
      var n := new HashEntry(name, node);
      PlacedPush(chains, slot, Repr, index, n);
      n.next := table[index];
      table[index] := n;
      chains := chains[index := [n] + chains[index]];
      Contents := Contents[index := [(name, node)] + Contents[index]];
      slot := slot[n := (index, |oldChains[index]|)];
      Repr := Repr + {n};
      forall b: int, k: int | 0 <= b < |oldChains| && 0 <= k < |chains[b]|
        ensures chains[b][k].next == NextOf(chains[b], k)
        ensures Contents[b][k] == (chains[b][k].key, chains[b][k].value)
      {
        if b == index && k == 0 {
        } else if b == index {
          assert chains[b][k] == oldChains[b][k - 1] != n;
          assert old@L(oldChains[b][k - 1].next == NextOf(oldChains[b], k - 1));
          assert NextOf(chains[b], k) == NextOf(oldChains[b], k - 1);
          assert old@L(oldContents[b][k - 1] == (oldChains[b][k - 1].key, oldChains[b][k - 1].value));
        } else {
          assert chains[b][k] == oldChains[b][k] != n;
          assert old@L(oldChains[b][k].next == NextOf(oldChains[b], k));
          assert old@L(oldContents[b][k] == (oldChains[b][k].key, oldChains[b][k].value));
        }
      }
      forall b: int | 0 <= b < |oldChains| && b != index
        ensures table[b] == Head(chains[b])
      {
        assert old@L(table[b] == Head(oldChains[b]));
      }
    }
  }
}
