/** The chained hash table of hiredis as it runs, and the finite map it stands for: every call is stated
    on the map, and every call keeps each entry in the bucket its hash selects. */
module Dict {
  const INITIAL_SIZE: nat := 4
  const LONG_MAX: nat := 0x7FFF_FFFF_FFFF_FFFF

  /** A bucket index is kept in an int, so there can be no more buckets than this. */
  const INDEX_LIMIT: nat := 0x8000_0000

  // ---------------------------------------------------------------- hashing

  /** dictGenHashFunction: hash * 33 + c in 32 bits. */
  function HashFrom(hash: nat, key: string): nat
    decreases key
  {
    if key == [] then hash else HashFrom((hash * 33 + key[0] as int) % 0x1_0000_0000, key[1..])
  }

  function Hash(key: string): nat {
    HashFrom(5381, key)
  }

  lemma {:induction false} HashFromSnoc(hash: nat, key: string, c: char)
    ensures HashFrom(hash, key + [c]) == (HashFrom(hash, key) * 33 + c as int) % 0x1_0000_0000
    decreases key
  {
    if key == [] {
      assert [c][1..] == [] && key + [c] == [c];
    } else {
      assert (key + [c])[1..] == key[1..] + [c];
      HashFromSnoc((hash * 33 + key[0] as int) % 0x1_0000_0000, key[1..], c);
    }
  }

  /** The hash starts at 5381, and every byte adds itself to 33 times the hash before it. */
  lemma HashIs(key: string, c: char)
    ensures Hash([]) == 5381 && Hash(key + [c]) == (Hash(key) * 33 + c as int) % 0x1_0000_0000
  {
    HashFromSnoc(5381, key, c);
  }

  /** Bitwise and. */
  function And(a: nat, b: nat): nat {
    if a == 0 || b == 0 then 0 else 2 * And(a / 2, b / 2) + (a % 2) * (b % 2)
  }

  predicate IsPowerOfTwo(n: nat) {
    n == 1 || (n > 1 && n % 2 == 0 && IsPowerOfTwo(n / 2))
  }

  /** Masking with a power of two less one is the remainder. */
  lemma {:induction false} MaskIsRemainder(a: nat, n: nat)
    requires IsPowerOfTwo(n)
    ensures And(a, n - 1) == a % n
    decreases n
  {
    if n > 1 {
      MaskIsRemainder(a / 2, n / 2);
      RemainderOfHalf(a, n / 2);
      assert (n - 1) / 2 == n / 2 - 1 && (n - 1) % 2 == 1;
    }
  }

  lemma RemainderOfHalf(a: nat, m: nat)
    requires m > 0
    ensures a % (2 * m) == 2 * (a / 2 % m) + a % 2
  {
    var q, r := a / 2 / m, a / 2 % m;
    assert a == 2 * (q * m + r) + a % 2;
    assert a == q * (2 * m) + (2 * r + a % 2) by { assert 2 * (q * m) == q * (2 * m); }
    RemainderUnique(a, 2 * m, q, 2 * r + a % 2);
  }

  lemma RemainderUnique(a: nat, m: nat, q: nat, r: nat)
    requires a == q * m + r && r < m
    ensures a % m == r
  {
    var p := a / m - q;
    assert a == (a / m) * m + a % m;
    assert p * m == r - a % m;
    if p != 0 {
      AtLeast(p, m);
    }
  }

  lemma AtLeast(p: int, m: nat)
    ensures p > 0 ==> p * m >= m
    ensures p < 0 ==> p * m + m <= 0
  {
  }

  /** There is no power of two between another one and its double. */
  lemma {:induction false} NextPowerFits(n: nat, m: nat)
    requires IsPowerOfTwo(n) && IsPowerOfTwo(m) && n < m
    ensures 2 * n <= m
    decreases n
  {
    if n > 1 { NextPowerFits(n / 2, m / 2); }
  }

  lemma {:induction false} PowerTimes(p: nat, q: nat)
    requires IsPowerOfTwo(p) && IsPowerOfTwo(q)
    ensures IsPowerOfTwo(p * q)
    decreases p
  {
    if p > 1 {
      PowerTimes(p / 2, q);
      assert p * q == 2 * (p / 2 * q);
    }
  }

  lemma LimitIsPower()
    ensures IsPowerOfTwo(INDEX_LIMIT)
  {
    assert IsPowerOfTwo(2) && IsPowerOfTwo(4) && IsPowerOfTwo(8);
    PowerTimes(4, 8);
    PowerTimes(0x20, 0x20);
    PowerTimes(0x400, 0x400);
    PowerTimes(0x10_0000, 0x400);
    PowerTimes(0x4000_0000, 2);
  }

  /** A bucket index as the int that _dictKeyIndex returns. */
  function AsInt(h: nat): int
    requires h < 0x1_0000_0000
  {
    if h < INDEX_LIMIT then h else h - 0x1_0000_0000
  }

  function Index(key: string, size: nat): nat
    requires size > 0
  {
    And(Hash(key), size - 1)
  }

  lemma IndexInTable(key: string, size: nat)
    requires IsPowerOfTwo(size)
    ensures Index(key, size) < size && Index(key, size) == Hash(key) % size
  {
    MaskIsRemainder(Hash(key), size);
  }

  /** _dictNextPower. */
  method NextPower(size: nat) returns (power: nat)
    ensures size >= LONG_MAX ==> power == LONG_MAX
    ensures size < LONG_MAX ==> IsPowerOfTwo(power) && power >= INITIAL_SIZE && power >= size
    ensures size < LONG_MAX ==> power == INITIAL_SIZE || power / 2 < size
  {
    power := INITIAL_SIZE;
    if size >= LONG_MAX { return LONG_MAX; }
    while power < size
      invariant IsPowerOfTwo(power) && power >= INITIAL_SIZE
      invariant power == INITIAL_SIZE || power / 2 < size
      decreases size - power
    {
      assert power * 2 / 2 == power;
      power := power * 2;
    }
  }

  // ---------------------------------------------------------------- chains

  class Entry<V> {
    const key: string
    var val: V
    var next: Entry?<V>

    constructor (key: string, val: V)
      ensures this.key == key && this.val == val && next == null
    {
      this.key, this.val, this.next := key, val, null;
    }
  }

  /** The entries reached from head, in order. */
  ghost predicate Chained<V>(head: Entry?<V>, chain: seq<Entry<V>>)
    reads chain
  {
    && head == (if chain == [] then null else chain[0])
    && (forall i :: 0 <= i < |chain| - 1 ==> chain[i].next == chain[i + 1])
    && (chain != [] ==> chain[|chain| - 1].next == null)
  }

  ghost predicate DistinctKeys<V>(chain: seq<Entry<V>>) {
    forall i, j :: 0 <= i < j < |chain| ==> chain[i].key != chain[j].key
  }

  ghost predicate AllIn<V>(chain: seq<Entry<V>>, size: nat, index: nat)
    requires size > 0
  {
    forall e :: e in chain ==> Index(e.key, size) == index
  }

  /** How many entries the chains hold. */
  ghost function Total<V>(chains: seq<seq<Entry<V>>>): nat {
    if chains == [] then 0 else |chains[0]| + Total(chains[1..])
  }

  lemma {:induction false} TotalUpdate<V>(chains: seq<seq<Entry<V>>>, i: nat, chain: seq<Entry<V>>)
    requires i < |chains|
    ensures Total(chains[i := chain]) == Total(chains) - |chains[i]| + |chain|
  {
    if i == 0 {
      assert chains[i := chain][1..] == chains[1..];
    } else {
      assert chains[i := chain][1..] == chains[1..][i - 1 := chain];
      TotalUpdate(chains[1..], i - 1, chain);
    }
  }

  lemma TotalSuffix<V>(chains: seq<seq<Entry<V>>>, i: nat)
    requires i < |chains|
    ensures Total(chains[i..]) == |chains[i]| + Total(chains[i + 1..])
  {
    assert chains[i..][1..] == chains[i + 1..];
  }

  lemma {:induction false} TotalZero<V>(chains: seq<seq<Entry<V>>>)
    requires Total(chains) == 0
    ensures forall i :: 0 <= i < |chains| ==> chains[i] == []
  {
    if chains != [] {
      TotalZero(chains[1..]);
      forall i | 0 <= i < |chains| ensures chains[i] == [] {
        if i > 0 { assert chains[i] == chains[1..][i - 1]; }
      }
    }
  }

  lemma {:induction false} EmptyTotal<V>(chains: seq<seq<Entry<V>>>)
    requires forall i :: 0 <= i < |chains| ==> chains[i] == []
    ensures Total(chains) == 0
  {
    if chains != [] {
      EmptyTotal(chains[1..]);
    }
  }

  /** The key has an entry in its bucket. */
  ghost predicate HoldsIn<V>(chains: seq<seq<Entry<V>>>, k: string)
    requires |chains| > 0
  {
    var i := Index(k, |chains|);
    i < |chains| && exists j :: 0 <= j < |chains[i]| && chains[i][j].key == k
  }

  lemma {:induction false} PowersAreSparse(p: nat, q: nat)
    requires IsPowerOfTwo(p) && IsPowerOfTwo(q) && p / 2 < q <= p
    ensures p == q
    decreases p
  {
    if p > 1 && q > 1 {
      PowersAreSparse(p / 2, q / 2);
    }
  }

  /** An entry of the first i buckets, or of the first j places of the next. */
  ghost predicate Moved<V>(chains: seq<seq<Entry<V>>>, e: Entry<V>, i: nat, j: nat)
    requires i <= |chains| && (i < |chains| ==> j <= |chains[i]|) && |chains| > 0
  {
    var k := Index(e.key, |chains|);
    (k < i && e in chains[k]) || (k == i < |chains| && e in chains[i][..j])
  }

  lemma MovedStep<V>(chains: seq<seq<Entry<V>>>, e: Entry<V>, i: nat, j: nat)
    requires i < |chains| && j < |chains[i]| && AllIn(chains[i], |chains|, i)
    ensures Moved(chains, e, i, j + 1) <==> Moved(chains, e, i, j) || e == chains[i][j]
  {
    assert chains[i][j] in chains[i];
    assert chains[i][..j + 1] == chains[i][..j] + [chains[i][j]];
  }

  ghost predicate Placed<V>(chains: seq<seq<Entry<V>>>, e: Entry<V>)
    requires |chains| > 0
  {
    var h := Index(e.key, |chains|);
    h < |chains| && e in chains[h]
  }

  /** The new chains hold the moved entries, each in its bucket, and nothing else. */
  ghost predicate ExactlyMoved<V>(chains: seq<seq<Entry<V>>>, fresher: seq<seq<Entry<V>>>, i: nat, j: nat)
    requires i <= |chains| && (i < |chains| ==> j <= |chains[i]|) && |chains| > 0 && |fresher| > 0
  {
    && (forall h, e :: 0 <= h < |fresher| && e in fresher[h] ==> Moved(chains, e, i, j))
    && (forall k, e :: 0 <= k < |chains| && e in chains[k] && Moved(chains, e, i, j) ==> Placed(fresher, e))
  }

  lemma ExactStep<V>(chains: seq<seq<Entry<V>>>, fresher: seq<seq<Entry<V>>>, i: nat, j: nat)
    requires i < |chains| && j < |chains[i]| && |fresher| > 0 && ExactlyMoved(chains, fresher, i, j)
    requires AllIn(chains[i], |chains|, i) && Index(chains[i][j].key, |fresher|) < |fresher|
    ensures var h := Index(chains[i][j].key, |fresher|);
            ExactlyMoved(chains, fresher[h := [chains[i][j]] + fresher[h]], i, j + 1)
  {
    hide Moved, Placed, AllIn;
    var he := chains[i][j];
    var more := fresher[Index(he.key, |fresher|) := [he] + fresher[Index(he.key, |fresher|)]];
    PlacedStep(fresher, he);
    forall h, e | 0 <= h < |more| && e in more[h] ensures Moved(chains, e, i, j + 1) {
      MovedStep(chains, e, i, j);
      assert e == he || e in fresher[h];
    }
    forall k, e | 0 <= k < |chains| && e in chains[k] && Moved(chains, e, i, j + 1) ensures Placed(more, e) {
      MovedStep(chains, e, i, j);
    }
  }

  lemma NextBucket<V>(chains: seq<seq<Entry<V>>>, fresher: seq<seq<Entry<V>>>, i: nat)
    requires i < |chains| && |fresher| > 0 && ExactlyMoved(chains, fresher, i, |chains[i]|)
    ensures ExactlyMoved(chains, fresher, i + 1, 0)
  {
    hide Placed;
    assert chains[i][..|chains[i]|] == chains[i];
    forall h, e | 0 <= h < |fresher| && e in fresher[h] ensures Moved(chains, e, i + 1, 0) {
      assert Moved(chains, e, i, |chains[i]|);
    }
    forall k, e | 0 <= k < |chains| && e in chains[k] && Moved(chains, e, i + 1, 0) ensures Placed(fresher, e) {
      assert Moved(chains, e, i, |chains[i]|);
    }
  }

  lemma PlacedStep<V>(chains: seq<seq<Entry<V>>>, entry: Entry<V>)
    requires |chains| > 0 && Index(entry.key, |chains|) < |chains|
    ensures var h := Index(entry.key, |chains|);
            var more := chains[h := [entry] + chains[h]];
            Placed(more, entry) && forall e :: Placed(chains, e) ==> Placed(more, e)
  {
    var h := Index(entry.key, |chains|);
    var more := chains[h := [entry] + chains[h]];
    assert entry in more[h];
    forall e | Placed(chains, e) ensures Placed(more, e) {
      var k := Index(e.key, |chains|);
      assert e in chains[k] ==> e in more[k];
    }
  }

  lemma DropOne<V>(chain: seq<Entry<V>>, j: nat)
    requires j < |chain| && Chained(chain[j], chain[j..])
    ensures Chained(chain[j].next, chain[j + 1..])
  {
    var whole, tail := chain[j..], chain[j + 1..];
    assert forall i :: 0 <= i < |tail| ==> tail[i] == whole[i + 1];
    assert |whole| > 1 ==> whole[0].next == whole[0 + 1];
  }

  lemma WithoutOne<V>(chain: seq<Entry<V>>, size: nat, index: nat, j: nat)
    requires j < |chain| && size > 0 && AllIn(chain, size, index) && DistinctKeys(chain)
    ensures var rest := chain[..j] + chain[j + 1..]; AllIn(rest, size, index) && DistinctKeys(rest)
  {
    var rest := chain[..j] + chain[j + 1..];
    forall e | e in rest ensures e in chain {
    }
  }

  lemma RestEntries<V>(chain: seq<Entry<V>>, j: nat)
    requires j < |chain| && forall a, b :: 0 <= a < b < |chain| ==> chain[a] != chain[b]
    ensures forall e :: e in chain[..j] + chain[j + 1..] ==> e in chain && e != chain[j]
  {
    var rest := chain[..j] + chain[j + 1..];
    forall e | e in rest ensures e in chain && e != chain[j] {
      var i :| 0 <= i < |rest| && rest[i] == e;
      assert e == chain[if i < j then i else i + 1];
    }
  }

  lemma HoldsWithout<V>(chains: seq<seq<Entry<V>>>, h: nat, j: nat, k: string)
    requires h < |chains| && j < |chains[h]| && k != chains[h][j].key && HoldsIn(chains, k)
    ensures HoldsIn(chains[h := chains[h][..j] + chains[h][j + 1..]], k)
  {
    var i := Index(k, |chains|);
    var n :| 0 <= n < |chains[i]| && chains[i][n].key == k;
    var fewer := chains[h := chains[h][..j] + chains[h][j + 1..]];
    var there: Entry<V> := fewer[i][if i != h || n < j then n else n - 1];
    assert there.key == k;
  }

  /** The entries are linked, except that the one at j is passed over. */
  ghost predicate ChainedAround<V>(head: Entry?<V>, chain: seq<Entry<V>>, j: nat)
    requires j < |chain|
    reads chain
  {
    var after := if j + 1 < |chain| then chain[j + 1] else null;
    && (if j == 0 then head == after else head == chain[0] && chain[j - 1].next == after)
    && (forall i :: 0 <= i < |chain| - 1 && i != j && i + 1 != j ==> chain[i].next == chain[i + 1])
    && (j + 1 < |chain| ==> chain[|chain| - 1].next == null)
  }

  lemma ChainedWithout<V>(head: Entry?<V>, chain: seq<Entry<V>>, j: nat)
    requires j < |chain| && ChainedAround(head, chain, j)
    ensures Chained(head, chain[..j] + chain[j + 1..])
  {
    var rest := chain[..j] + chain[j + 1..];
    forall i | 0 <= i < |rest| - 1 ensures rest[i].next == rest[i + 1] {
      assert rest[i] == chain[if i < j then i else i + 1];
      assert rest[i + 1] == chain[if i + 1 < j then i + 1 else i + 2];
    }
    if rest != [] {
      assert rest[|rest| - 1] == chain[if j + 1 == |chain| then j - 1 else |chain| - 1];
    }
  }

  lemma PrependChain<V>(e: Entry<V>, chain: seq<Entry<V>>, head: Entry?<V>)
    requires Chained(head, chain) && e.next == head
    ensures Chained(e, [e] + chain)
  {
  }

  class Dict<V> {
    var table: array<Entry?<V>>
    var size: nat
    var sizemask: int
    var used: nat
    ghost var chains: seq<seq<Entry<V>>>
    ghost var contents: map<string, V>
    ghost var repr: set<object>

    /** The buckets are linked lists, each entry in the bucket of its key, and no key twice. */
    ghost predicate Linked()
      reads this, repr
    {
      && table in repr && this !in repr
      && table.Length == size == |chains| && sizemask == size - 1
      && (size == 0 || (IsPowerOfTwo(size) && INITIAL_SIZE <= size <= INDEX_LIMIT))
      && (forall i, e :: 0 <= i < size && e in chains[i] ==> e in repr)
      && (forall i :: 0 <= i < size ==> Chained(table[i], chains[i]))
      && (forall i :: 0 <= i < size ==> AllIn(chains[i], size, i) && DistinctKeys(chains[i]))
    }

    ghost predicate Valid()
      reads this, repr
    {
      && Linked()
      && used == Total(chains) == |contents| && used <= size
      && Stands()
    }

    /** The map has exactly the keys and values of the entries. */
    ghost predicate Stands()
      reads this, repr
      requires size == |chains| && forall i, e :: 0 <= i < size && e in chains[i] ==> e in repr
    {
      && (forall i, e :: 0 <= i < size && e in chains[i] ==> e.key in contents && contents[e.key] == e.val)
      && (forall k :: k in contents ==> Holds(k))
    }

    ghost predicate Holds(k: string)
      reads this
    {
      |chains| > 0 && HoldsIn(chains, k)
    }

    /** dictCreate. */
    constructor ()
      ensures Valid() && contents == map[] && size == 0 && fresh(repr)
    {
      table := new Entry?<V>[0];
      size, sizemask, used := 0, -1, 0;
      chains, contents := [], map[];
      new;
      repr := {table};
    }

    /** The walk along one bucket. */
    static method Walk(head: Entry?<V>, ghost chain: seq<Entry<V>>, key: string) returns (he: Entry?<V>)
      requires Chained(head, chain)
      ensures he == null ==> forall e :: e in chain ==> e.key != key
      ensures he != null ==> he in chain && he.key == key
    {
      he := head;
      ghost var j := 0;
      while he != null
        invariant j <= |chain| && he == if j < |chain| then chain[j] else null
        invariant forall k :: 0 <= k < j ==> chain[k].key != key
        decreases |chain| - j
      {
        if key == he.key { return; }
        he := he.next;
        j := j + 1;
      }
    }

    /** dictFind. */
    method Find(key: string) returns (he: Entry?<V>)
      requires Valid()
      ensures he == null <==> key !in contents
      ensures he != null ==> he in repr && he.key == key && he.val == contents[key]
      ensures he != null ==> size > 0 && Index(key, size) < |chains| && he in chains[Index(key, size)]
    {
      hide Chained, AllIn, DistinctKeys, Total, IsPowerOfTwo;
      if size == 0 { return null; }
      IndexInTable(key, size);
      var h := And(Hash(key), sizemask);
      he := Walk(table[h], chains[h], key);
    }

    /** The stack-allocated table of dictExpand. */
    constructor Sized(buckets: nat, entries: nat)
      requires IsPowerOfTwo(buckets) && INITIAL_SIZE <= buckets <= INDEX_LIMIT
      ensures Linked() && size == buckets && fresh(repr) && used == entries
      ensures Total(chains) == 0 && forall h :: 0 <= h < size ==> chains[h] == []
    {
      table := new Entry?<V>[buckets](_ => null);
      size, sizemask, used := buckets, buckets - 1, entries;
      chains, contents := seq(buckets, _ => []), map[];
      new;
      repr := {table};
      EmptyTotal(chains);
    }

    /** An entry becomes the head of its bucket. */
    method PushEntry(entry: Entry<V>)
      requires Linked() && size > 0
      requires forall h, e :: 0 <= h < size && e in chains[h] ==> e.key != entry.key
      modifies this`chains, this`repr, table, entry`next
      ensures Linked() && repr == old(repr) + {entry}
      ensures var h := Index(entry.key, size);
              h < size && chains == old(chains)[h := [entry] + old(chains)[h]]
    {
      hide IsPowerOfTwo;
      IndexInTable(entry.key, size);
      var h := And(Hash(entry.key), sizemask);
      entry.next := table[h];
      table[h] := entry;
      ghost var was := chains;
      chains := chains[h := [entry] + chains[h]];
      repr := repr + {entry};
      forall i | 0 <= i < size
        ensures Chained(table[i], chains[i]) && AllIn(chains[i], size, i) && DistinctKeys(chains[i])
      {
        assert forall e :: e in was[i] ==> e != entry;
        if i == h {
          PrependChain(entry, was[h], entry.next);
        }
      }
    }

    // -------------------------------------------------------------- growing

    /** Half way through dictExpand: n holds exactly the moved entries, and the others are still linked. */
    ghost predicate Rehashing(n: Dict<V>, i: nat, j: nat)
      reads this, repr, n, n.repr
    {
      && n != this && n.Linked() && |n.chains| == n.size > 0
      && table in repr && this !in repr && table != n.table && n !in repr && this !in n.repr
      && table.Length == size == |chains| && size > 0
      && i <= size && (i < size ==> j <= |chains[i]|)
      && (forall k :: 0 <= k < size ==> AllIn(chains[k], size, k) && DistinctKeys(chains[k]))
      && (forall k, e :: 0 <= k < size && e in chains[k] ==> e in repr)
      && (forall k :: i < k < size ==> Chained(table[k], chains[k]))
      && ExactlyMoved(chains, n.chains, i, j)
    }

    lemma NewKey(n: Dict<V>, i: nat, j: nat)
      requires Rehashing(n, i, j) && i < size && j < |chains[i]|
      ensures forall h, e :: 0 <= h < n.size && e in n.chains[h] ==> e.key != chains[i][j].key
    {
      hide IsPowerOfTwo, Chained;
      assert chains[i][j] in chains[i];
      forall h, e | 0 <= h < n.size && e in n.chains[h] ensures e.key != chains[i][j].key {
        assert Moved(chains, e, i, j);
      }
    }

    /** The entry is in no later bucket, and not later in its own. */
    lemma OnlyOnce(i: nat, j: nat)
      requires size == |chains| && i < size && j < |chains[i]|
      requires forall k :: 0 <= k < size ==> AllIn(chains[k], size, k) && DistinctKeys(chains[k])
      ensures forall k :: i < k < size ==> chains[i][j] !in chains[k]
      ensures chains[i][j] !in chains[i][j + 1..]
    {
      assert chains[i][j] in chains[i];
    }

    /** One turn of the inner loop of dictExpand. */
    method MoveEntry(n: Dict<V>, i: nat, ghost j: nat, he: Entry<V>) returns (nextHe: Entry?<V>)
      requires Rehashing(n, i, j) && i < size && j < |chains[i]| && used > 0
      requires he == chains[i][j] && Chained(he, chains[i][j..])
      modifies n`chains, n`repr, n.table, he`next, this`used
      ensures Rehashing(n, i, j + 1) && Chained(nextHe, chains[i][j + 1..])
      ensures used == old(used) - 1 && n.repr == old(n.repr) + {he}
      ensures |n.chains| == old(|n.chains|) && Total(n.chains) == old(Total(n.chains)) + 1
      ensures nextHe == if j + 1 < |chains[i]| then chains[i][j + 1] else null
    {
      hide IsPowerOfTwo, DistinctKeys, AllIn, ExactlyMoved;
      NewKey(n, i, j);
      OnlyOnce(i, j);
      DropOne(chains[i], j);
      nextHe := he.next;
      IndexInTable(he.key, n.size);
      ExactStep(chains, n.chains, i, j);
      TotalUpdate(n.chains, Index(he.key, n.size), [he] + n.chains[Index(he.key, n.size)]);
      n.PushEntry(he);
      used := used - 1;
    }

    /** The inner loop of dictExpand: one bucket goes over to n. */
    method MoveBucket(n: Dict<V>, i: nat)
      requires Rehashing(n, i, 0) && i < size && Chained(table[i], chains[i]) && used >= |chains[i]|
      modifies n`chains, n`repr, n.table, this`used, (set e | e in chains[i])`next
      ensures Rehashing(n, i + 1, 0) && (i + 1 < size ==> Chained(table[i + 1], chains[i + 1]))
      ensures used == old(used) - |chains[i]|
      ensures n.repr == old(n.repr) + set e | e in chains[i]
      ensures |n.chains| == old(|n.chains|) && Total(n.chains) == old(Total(n.chains)) + |chains[i]|
    {
      hide IsPowerOfTwo, Linked, ExactlyMoved, AllIn, DistinctKeys, Total, Rehashing;
      InBounds(n, i);
      var he := table[i];
      ghost var j := 0;
      assert chains[i][0..] == chains[i];
      while he != null
        invariant chains == old(chains) && size == old(size) && n.table == old(n.table)
        invariant j <= |chains[i]| && Rehashing(n, i, j) && Chained(he, chains[i][j..])
        invariant he == if j < |chains[i]| then chains[i][j] else null
        invariant used == old(used) - j
        invariant n.repr == old(n.repr) + set e | e in chains[i][..j]
        invariant |n.chains| == old(|n.chains|) && Total(n.chains) == old(Total(n.chains)) + j
        decreases |chains[i]| - j
      {
        he := MoveEntry(n, i, j, he);
        assert chains[i][..j + 1] == chains[i][..j] + [chains[i][j]];
        j := j + 1;
      }
      assert chains[i][..j] == chains[i];
      BucketDone(n, i);
    }

    lemma InBounds(n: Dict<V>, i: nat)
      requires Rehashing(n, i, 0)
      ensures table.Length == size == |chains| && n != this && table != n.table
    {
    }

    lemma BucketDone(n: Dict<V>, i: nat)
      requires size == |chains| && i < size && Rehashing(n, i, |chains[i]|)
      ensures Rehashing(n, i + 1, 0) && (i + 1 < size ==> Chained(table[i + 1], chains[i + 1]))
    {
      hide Linked, ExactlyMoved, AllIn, DistinctKeys, Chained;
      NextBucket(chains, n.chains, i);
    }

    /** What dictExpand has moved when it stops: everything. */
    lemma AllMoved(n: Dict<V>, i: nat)
      requires Rehashing(n, i, 0) && Total(chains[i..]) == 0
      ensures forall k, e :: 0 <= k < size && e in chains[k] ==> Placed(n.chains, e)
      ensures forall h, e :: 0 <= h < n.size && e in n.chains[h] ==>
                Index(e.key, size) < size && e in chains[Index(e.key, size)]
    {
      hide IsPowerOfTwo, Linked, Chained, DistinctKeys, Placed;
      TotalZero(chains[i..]);
      forall k | i <= k < size ensures chains[k] == [] {
        assert chains[i..][k - i] == chains[k];
      }
      forall k, e | 0 <= k < size && e in chains[k] ensures Placed(n.chains, e) {
        assert Moved(chains, e, i, 0);
      }
      forall h, e | 0 <= h < n.size && e in n.chains[h]
        ensures Index(e.key, size) < size && e in chains[Index(e.key, size)]
      {
        assert Moved(chains, e, i, 0);
      }
    }

    /** The loops of dictExpand. Its assertion, that no entry is left, is the last line. */
    method Rehash(n: Dict<V>)
      requires Rehashing(n, 0, 0) && Chained(table[0], chains[0]) && used == Total(chains) && Total(n.chains) == 0
      requires forall h :: 0 <= h < n.size ==> n.chains[h] == []
      modifies n`chains, n`repr, n.table, this`used, (set k, e | 0 <= k < size && e in chains[k] :: e)`next
      ensures n.Linked() && Total(n.chains) == old(used) && n.repr <= old(n.repr) + repr
      ensures forall k, e :: 0 <= k < size && e in chains[k] ==> Placed(n.chains, e)
      ensures forall h, e :: 0 <= h < n.size && e in n.chains[h] ==>
                Index(e.key, size) < size && e in chains[Index(e.key, size)]
      ensures |n.chains| == n.size
    {
      hide IsPowerOfTwo, Linked, ExactlyMoved, AllIn, DistinctKeys, Total, Placed;
      var i := 0;
      assert chains[0..] == chains;
      while i < size && used > 0
        invariant i <= size && Rehashing(n, i, 0) && (i < size ==> Chained(table[i], chains[i]))
        invariant used == Total(chains[i..])
        invariant |n.chains| == n.size && Total(n.chains) + used == old(used)
        invariant n.repr <= old(n.repr) + repr
      {
        TotalSuffix(chains, i);
        MoveBucket(n, i);
        i := i + 1;
      }
      if i == size {
        EmptyTotal(chains[i..]);
      }
      AllMoved(n, i);
      assert used == 0;
    }

    /** dictExpand, as it is called: to the initial size, or to twice the size. */
    method Expand(requested: nat) returns (ok: bool)
      requires Valid() && IsPowerOfTwo(requested) && INITIAL_SIZE <= requested <= INDEX_LIMIT
      modifies this, repr
      ensures Valid() && contents == old(contents) && fresh(repr - old(repr))
      ensures ok <==> old(used) <= requested
      ensures size == if ok then requested else old(size)
    {
      hide Linked, Total, IsPowerOfTwo, HoldsIn, Stands, Index, Placed;
      var realsize := NextPower(requested);
      PowersAreSparse(realsize, requested);
      if used > requested { return false; }
      var n := new Dict<V>.Sized(realsize, used);
      NewTable(n);
      if size > 0 {
        Transfer(n);
      }
      Install(n);
      return true;
    }

    /** The new table takes the place of the old. */
    method Install(n: Dict<V>)
      requires n.Linked() && n != this && this !in n.repr && this !in repr && |n.chains| == n.size > 0
      requires n.used == Total(n.chains) == |contents| && n.used <= n.size
      requires forall h, e :: 0 <= h < |n.chains| && e in n.chains[h] ==>
                 e.key in contents && contents[e.key] == e.val
      requires forall k :: k in contents ==> HoldsIn(n.chains, k)
      modifies this
      ensures Valid() && contents == old(contents) && size == n.size && repr == old(repr) + n.repr
    {
      hide Total, HoldsIn, IsPowerOfTwo, Chained, AllIn, DistinctKeys;
      table, size, sizemask, used := n.table, n.size, n.sizemask, n.used;
      chains, repr := n.chains, repr + n.repr;
      SameTable(n);
    }

    /** The entries of a table that has some buckets, in the chains of n. */
    method Transfer(n: Dict<V>)
      requires Valid() && size > 0 && n.Linked() && n.size > 0 && n != this
      requires table != n.table && n !in repr && this !in n.repr && Total(n.chains) == 0
      requires forall h :: 0 <= h < n.size ==> n.chains[h] == []
      modifies n`chains, n`repr, n.table, this`used, (set k, e | 0 <= k < size && e in chains[k] :: e)`next
      ensures n.Linked() && |n.chains| == n.size && Total(n.chains) == old(used) && n.repr <= old(n.repr) + repr
      ensures forall h, e :: 0 <= h < |n.chains| && e in n.chains[h] ==>
                e.key in contents && contents[e.key] == e.val
      ensures forall k :: k in contents ==> HoldsIn(n.chains, k)
    {
      hide Linked, Total, Rehashing, IsPowerOfTwo, Chained, Placed, HoldsIn;
      NewTable(n);
      NothingMoved(n);
      Rehash(n);
      CarriedOver(n);
    }

    /** A table without buckets has no entries. */
    lemma NewTable(n: Dict<V>)
      requires Valid() && n.Linked() && n.size > 0
      ensures |n.chains| == n.size && n.table in n.repr && size == |chains| && table in repr && this !in repr
      ensures forall i, e :: 0 <= i < size && e in chains[i] ==> e in repr
      ensures size == 0 ==> contents == map[] && used == 0
    {
    }

    /** What was true of the old entries is true of the new chains. */
    lemma CarriedOver(n: Dict<V>)
      requires table in repr && this !in repr && size == |chains| > 0
      requires forall i, e :: 0 <= i < size && e in chains[i] ==> e in repr
      requires Stands() && |n.chains| > 0
      requires forall k, e :: 0 <= k < size && e in chains[k] ==> Placed(n.chains, e)
      requires forall h, e :: 0 <= h < |n.chains| && e in n.chains[h] ==>
                 Index(e.key, size) < size && e in chains[Index(e.key, size)]
      ensures forall h, e :: 0 <= h < |n.chains| && e in n.chains[h] ==>
                e.key in contents && contents[e.key] == e.val
      ensures forall k :: k in contents ==> HoldsIn(n.chains, k)
    {
      forall k | k in contents ensures HoldsIn(n.chains, k) {
        assert Holds(k);
        var i := Index(k, size);
        var j :| 0 <= j < |chains[i]| && chains[i][j].key == k;
        assert chains[i][j] in chains[i];
        assert Placed(n.chains, chains[i][j]);
      }
    }

    lemma SameTable(n: Dict<V>)
      requires n.Linked() && table == n.table && size == n.size && sizemask == n.sizemask && chains == n.chains
      requires |chains| == size > 0 && n.repr <= repr && this !in repr && used == Total(chains) == |contents| <= size
      requires forall h, e :: 0 <= h < |chains| && e in chains[h] ==>
                 e.key in contents && contents[e.key] == e.val
      requires forall k :: k in contents ==> HoldsIn(chains, k)
      ensures Valid()
    {
      hide Linked, HoldsIn, Total;
      SameLinks(n);
    }

    lemma SameLinks(n: Dict<V>)
      requires n.Linked() && table == n.table && size == n.size && sizemask == n.sizemask && chains == n.chains
      requires n.repr <= repr && this !in repr
      ensures Linked() && forall i, e :: 0 <= i < size && e in chains[i] ==> e in repr
    {
    }

    lemma NothingMoved(n: Dict<V>)
      requires Linked() && size > 0 && n.Linked() && n.size > 0 && n != this
      requires table != n.table && n !in repr && this !in n.repr
      requires forall h :: 0 <= h < n.size ==> n.chains[h] == []
      ensures Rehashing(n, 0, 0) && Chained(table[0], chains[0])
    {
    }

    // -------------------------------------------------------------- changes

    /** _dictExpandIfNeeded. */
    method ExpandIfNeeded() returns (ok: bool)
      requires Valid() && used < INDEX_LIMIT
      modifies this, repr
      ensures Valid() && contents == old(contents) && fresh(repr - old(repr))
      ensures ok && size > 0 && used < size
      ensures size == if old(size) == 0 then 4 else if old(used) == old(size) then 2 * old(size) else old(size)
    {
      hide Linked, Stands, Total, IsPowerOfTwo;
      SizeIsPower();
      if size == 0 {
        ok := Expand(INITIAL_SIZE);
        return;
      }
      if used == size {
        ok := Expand(size * 2);
        return;
      }
      return true;
    }

    lemma SizeIsPower()
      requires Valid()
      ensures IsPowerOfTwo(INITIAL_SIZE)
      ensures size == 0 || (IsPowerOfTwo(size) && IsPowerOfTwo(size * 2) && INITIAL_SIZE <= size <= INDEX_LIMIT)
      ensures size == 0 || size == INDEX_LIMIT || size * 2 <= INDEX_LIMIT
    {
      hide Stands, Chained, AllIn, DistinctKeys, Total;
      assert IsPowerOfTwo(1) && IsPowerOfTwo(2);
      assert size * 2 / 2 == size;
      LimitIsPower();
      if 0 < size < INDEX_LIMIT { NextPowerFits(size, INDEX_LIMIT); }
    }

    /** _dictKeyIndex: the bucket for a new key, or -1. */
    method KeyIndex(key: string) returns (index: int)
      requires Valid() && used < INDEX_LIMIT
      modifies this, repr
      ensures Valid() && contents == old(contents) && fresh(repr - old(repr))
      ensures size > 0 && used < size
      ensures index == if key in contents then -1 else Index(key, size)
    {
      hide Linked, Stands, Total, IsPowerOfTwo;
      var ok := ExpandIfNeeded();
      if !ok { return -1; }
      var he := Find(key);
      if he != null { return -1; }
      SizeIsPower();
      Masked();
      IndexInTable(key, size);
      return AsInt(And(Hash(key), sizemask));
    }

    lemma Masked()
      requires Valid() && size > 0
      ensures sizemask == size - 1
    {
    }

    /** dictAdd. */
    method Add(key: string, val: V) returns (ok: bool)
      requires Valid() && used < INDEX_LIMIT
      modifies this, repr
      ensures Valid() && fresh(repr - old(repr))
      ensures ok <==> key !in old(contents)
      ensures contents == if ok then old(contents)[key := val] else old(contents)
      ensures size > 0
    {
      hide Linked, Stands, Total, IsPowerOfTwo, HoldsIn;
      var index := KeyIndex(key);
      if index == -1 { return false; }
      var entry := new Entry(key, val);
      NewEntry(key);
      TotalUpdate(chains, index, [entry] + chains[index]);
      ghost var was := chains;
      PushEntry(entry);
      Count(contents[key := val], used + 1);
      PushedStands(entry, was);
      return true;
    }

    lemma NewEntry(key: string)
      requires Valid() && size > 0 && key !in contents
      ensures Linked() && table in repr && Index(key, size) < size == |chains|
      ensures forall h, e :: 0 <= h < |chains| && e in chains[h] ==>
                e.key != key && e.key in contents && contents[e.key] == e.val
      ensures forall k :: k in contents ==> HoldsIn(chains, k)
    {
      hide Chained, AllIn, DistinctKeys, Total, HoldsIn;
      IndexInTable(key, size);
    }

    /** The count and the map are not part of the links. */
    method Count(ghost fields: map<string, V>, entries: nat)
      requires Linked()
      modifies this`used, this`contents
      ensures Linked() && used == entries && contents == fields
    {
      used := entries;
      contents := fields;
    }

    /** The map after an entry was pushed. */
    lemma PushedStands(entry: Entry<V>, was: seq<seq<Entry<V>>>)
      requires Linked() && |was| == size > 0 && Index(entry.key, size) < size
      requires var h := Index(entry.key, size); chains == was[h := [entry] + was[h]]
      requires entry.key in contents && contents[entry.key] == entry.val
      requires forall h, e :: 0 <= h < |was| && e in was[h] ==> e.key in contents && contents[e.key] == e.val
      requires forall k :: k in contents ==> k == entry.key || HoldsIn(was, k)
      ensures forall i, e :: 0 <= i < size && e in chains[i] ==> e in repr
      ensures size == |chains| && Stands()
    {
      hide Chained, AllIn, DistinctKeys, IsPowerOfTwo;
      var h := Index(entry.key, size);
      forall k | k in contents ensures HoldsIn(chains, k) {
        if k == entry.key {
          assert chains[h][0].key == k;
        } else if Index(k, size) == h {
          var j :| 0 <= j < |was[h]| && was[h][j].key == k;
          assert chains[h][j + 1].key == k;
        } else {
          var i := Index(k, size);
          assert HoldsIn(was, k);
          assert chains[i] == was[i];
        }
      }
    }

    /** dictReplace: 1 when the key is new, 0 when its value was overwritten. */
    method Replace(key: string, val: V) returns (added: int)
      requires Valid() && used < INDEX_LIMIT
      modifies this, repr
      ensures Valid() && fresh(repr - old(repr)) && contents == old(contents)[key := val]
      ensures added == if key in old(contents) then 0 else 1
    {
      hide Linked, Stands, Total, IsPowerOfTwo, HoldsIn;
      var ok := Add(key, val);
      if ok { return 1; }
      var entry := Find(key);
      Overwrite(entry, val);
      return 0;
    }

    method Overwrite(entry: Entry<V>, val: V)
      requires Valid() && entry in repr && size > 0 && entry.key in contents
      requires Index(entry.key, size) < |chains| && entry in chains[Index(entry.key, size)]
      modifies this`contents, entry`val
      ensures Valid() && contents == old(contents)[entry.key := val]
    {
      hide Linked, Total, IsPowerOfTwo, HoldsIn, Stands;
      Facts();
      OnlyEntry(entry);
      SetValue(entry, val);
      FactsSuffice();
    }

    method SetValue(entry: Entry<V>, val: V)
      requires Linked()
      modifies this`contents, entry`val
      ensures Linked() && entry.val == val && contents == old(contents)[entry.key := val]
    {
      entry.val := val;
      contents := contents[entry.key := val];
    }

    lemma Facts()
      requires Valid()
      ensures Linked() && table in repr && size == |chains|
      ensures forall h, e: Entry<V> :: 0 <= h < |chains| && e in chains[h] ==>
                e in repr && e.key in contents && contents[e.key] == e.val
      ensures forall k :: k in contents ==> |chains| > 0 && HoldsIn(chains, k)
    {
      hide HoldsIn, Total, IsPowerOfTwo, Chained, AllIn, DistinctKeys;
    }

    lemma OneChainPerBucket()
      requires Valid()
      ensures size == |chains|
    {
    }

    lemma FactsSuffice()
      requires Linked() && used == Total(chains) == |contents| && used <= size
      requires forall h, e :: 0 <= h < |chains| && e in chains[h] ==> e.key in contents && contents[e.key] == e.val
      requires forall k :: k in contents ==> |chains| > 0 && HoldsIn(chains, k)
      ensures Valid()
    {
      hide HoldsIn, Total, IsPowerOfTwo, Chained, AllIn, DistinctKeys;
    }

    lemma OnlyEntry(entry: Entry<V>)
      requires Linked() && size > 0
      requires Index(entry.key, size) < |chains| && entry in chains[Index(entry.key, size)]
      ensures forall i, e :: 0 <= i < size && e in chains[i] && e.key == entry.key ==> e == entry
    {
      hide Chained, IsPowerOfTwo;
    }

    /** Where an entry is in its bucket, and the entry before it. */
    static method WalkWithPrevious(head: Entry?<V>, ghost chain: seq<Entry<V>>, key: string)
      returns (de: Entry?<V>, prevde: Entry?<V>, ghost j: nat)
      requires Chained(head, chain)
      ensures de == null ==> forall e :: e in chain ==> e.key != key
      ensures de != null ==> j < |chain| && de == chain[j] && de.key == key
      ensures de != null ==> prevde == if j == 0 then null else chain[j - 1]
    {
      de, prevde, j := head, null, 0;
      while de != null
        invariant j <= |chain| && de == if j < |chain| then chain[j] else null
        invariant prevde == if j == 0 then null else chain[j - 1]
        invariant forall k :: 0 <= k < j ==> chain[k].key != key
        decreases |chain| - j
      {
        if key == de.key { return; }
        prevde := de;
        de := de.next;
        j := j + 1;
      }
    }

    lemma Separate(h: nat)
      requires Linked() && h < size
      ensures forall i, j :: 0 <= i < j < |chains[h]| ==> chains[h][i] != chains[h][j]
      ensures forall k, e :: 0 <= k < size && k != h && e in chains[h] ==> e !in chains[k]
    {
      hide Chained, IsPowerOfTwo;
    }

    lemma InBucket(h: nat)
      requires Linked() && h < size
      ensures h < |chains| && AllIn(chains[h], size, h) && DistinctKeys(chains[h])
    {
    }

    lemma Links(h: nat)
      requires Linked() && h < size
      ensures table.Length == size
      ensures table[h] == (if chains[h] == [] then null else chains[h][0])
      ensures forall i :: 0 <= i < |chains[h]| - 1 ==> chains[h][i].next == chains[h][i + 1]
      ensures chains[h] != [] ==> chains[h][|chains[h]| - 1].next == null
    {
      hide AllIn, DistinctKeys, IsPowerOfTwo;
    }

    /** An entry taken out of its bucket. */
    method Unlink(h: nat, de: Entry<V>, prevde: Entry?<V>, ghost j: nat)
      requires Linked() && h < size && j < |chains[h]| && de == chains[h][j]
      requires prevde == if j == 0 then null else chains[h][j - 1]
      modifies this`chains, table, (if prevde == null then {} else {prevde})`next
      ensures Linked() && chains == old(chains)[h := old(chains)[h][..j] + old(chains)[h][j + 1..]]
    {
      hide IsPowerOfTwo, AllIn, DistinctKeys, Chained;
      ghost var was := chains[h];
      ghost var rest := was[..j] + was[j + 1..];
      Separate(h);
      Links(h);
      assert prevde != null ==> prevde in was;
      if prevde != null {
        prevde.next := de.next;
      } else {
        table[h] := de.next;
      }
      ChainedWithout(table[h], was, j);
      WithoutOne(was, size, h, j);
      chains := chains[h := rest];
      assert forall e :: e in rest ==> e in was;
      forall i | 0 <= i < size ensures Chained(table[i], chains[i]) && AllIn(chains[i], size, i) {
        assert i != h ==> Chained(table[i], old(chains)[i]);
      }
    }

    /** dictDelete. */
    method Delete(key: string) returns (ok: bool, ghost j: nat)
      requires Valid()
      modifies this, repr
      ensures Valid() && repr == old(repr) && size == old(size)
      ensures ok <==> key in old(contents)
      ensures contents == old(contents) - {key}
      ensures !ok ==> chains == old(chains)
      ensures ok ==>
                var h := Index(key, size);
                && h < |old(chains)| && j < |old(chains)[h]| && old(chains)[h][j].key == key
                && chains == old(chains)[h := old(chains)[h][..j] + old(chains)[h][j + 1..]]
    {
      hide Linked, Total, IsPowerOfTwo, HoldsIn, Stands;
      Facts();
      if size == 0 { return false, 0; }
      Bucket(key);
      var h := And(Hash(key), sizemask);
      var de, prevde;
      de, prevde, j := WalkWithPrevious(table[h], chains[h], key);
      if de == null {
        Absent(key);
        return false, j;
      }
      DropEntry(h, de, prevde, j);
      return true, j;
    }

    /** The rest of dictDelete, for an entry that was found. */
    method DropEntry(h: nat, de: Entry<V>, prevde: Entry?<V>, ghost j: nat)
      requires Valid() && size > 0 && h == Index(de.key, size) < |chains| && j < |chains[h]| && de == chains[h][j]
      requires prevde == if j == 0 then null else chains[h][j - 1]
      modifies this, repr
      ensures Valid() && repr == old(repr) && size == old(size)
      ensures de.key in old(contents) && contents == old(contents) - {de.key}
      ensures chains == old(chains)[h := old(chains)[h][..j] + old(chains)[h][j + 1..]]
    {
      hide Linked, Total, IsPowerOfTwo, HoldsIn, Stands;
      Facts();
      ghost var was, fields := chains, contents;
      TotalUpdate(chains, h, chains[h][..j] + chains[h][j + 1..]);
      assert de in chains[h];
      OnlyEntry(de);
      Separate(h);
      Unlink(h, de, prevde, j);
      Count(contents - {de.key}, used - 1);
      UnlinkedStands(was, fields, h, j);
      FactsSuffice();
    }

    lemma Bucket(key: string)
      requires Linked() && size > 0
      ensures sizemask == size - 1 && table.Length == size && Index(key, size) < size
      ensures Chained(table[Index(key, size)], chains[Index(key, size)])
    {
      IndexInTable(key, size);
    }

    lemma Absent(key: string)
      requires |chains| > 0 && Index(key, |chains|) < |chains|
      requires forall e :: e in chains[Index(key, |chains|)] ==> e.key != key
      ensures !HoldsIn(chains, key)
    {
    }

    /** The map after the entry at j of bucket h was unlinked. */
    lemma UnlinkedStands(was: seq<seq<Entry<V>>>, fields: map<string, V>, h: nat, j: nat)
      requires |chains| == |was| && h < |was| && j < |was[h]| && Index(was[h][j].key, |was|) == h
      requires chains == was[h := was[h][..j] + was[h][j + 1..]] && contents == fields - {was[h][j].key}
      requires forall i, e :: 0 <= i < |was| && e in was[i] ==> e.key in fields && fields[e.key] == e.val
      requires forall i, e :: 0 <= i < |was| && e in was[i] && e.key == was[h][j].key ==> e == was[h][j]
      requires forall a, b :: 0 <= a < b < |was[h]| ==> was[h][a] != was[h][b]
      requires forall i :: 0 <= i < |was| && i != h ==> was[h][j] !in was[i]
      requires forall k :: k in fields ==> HoldsIn(was, k)
      ensures forall i, e :: 0 <= i < |chains| && e in chains[i] ==> e.key in contents && contents[e.key] == e.val
      ensures forall k :: k in contents ==> HoldsIn(chains, k)
    {
      hide HoldsIn;
      var rest := was[h][..j] + was[h][j + 1..];
      RestEntries(was[h], j);
      forall i, e | 0 <= i < |chains| && e in chains[i] ensures e.key in contents && contents[e.key] == e.val {
        assert e in was[i] && e != was[h][j];
      }
      forall k | k in contents ensures HoldsIn(chains, k) {
        HoldsWithout(was, h, j, k);
      }
    }
  }
  // ---------------------------------------------------------------- iteration

  /** The entries of the chains, one chain after another. */
  ghost function Flatten<V>(chains: seq<seq<Entry<V>>>): seq<Entry<V>> {
    if chains == [] then [] else chains[0] + Flatten(chains[1..])
  }

  lemma FlattenFrom<V>(chains: seq<seq<Entry<V>>>, i: nat)
    requires i < |chains|
    ensures Flatten(chains[i..]) == chains[i] + Flatten(chains[i + 1..])
  {
    assert chains[i..][1..] == chains[i + 1..];
  }

  /** A tail of a chain. */
  ghost predicate Suffix<V>(tail: seq<Entry<V>>, chain: seq<Entry<V>>) {
    |tail| <= |chain| && tail == chain[|chain| - |tail|..]
  }

  lemma SuffixStep<V>(tail: seq<Entry<V>>, chain: seq<Entry<V>>)
    requires Suffix(tail, chain) && tail != []
    ensures Suffix(tail[1..], chain)
    ensures var k := |chain| - |tail|;
            tail[0] == chain[k] && chain[k] in chain && (|tail| > 1 ==> tail[1] == chain[k + 1])
  {
  }

  class DictIterator<V> {
    const ht: Dict<V>
    var index: int
    var entry: Entry?<V>
    var nextEntry: Entry?<V>
    ghost var tail: seq<Entry<V>>

    ghost predicate Valid()
      reads this, ht, ht.repr
    {
      && this !in ht.repr
      && ht.Valid()
      && ht.size == |ht.chains|
      && -1 <= index
      && (entry != null ==> 0 <= index < ht.size && Suffix(tail, ht.chains[index]))
      && nextEntry == (if entry == null || tail == [] then null else tail[0])
    }

    /** The entries still to come. */
    ghost function Pending(): seq<Entry<V>>
      reads this, ht
    {
      if -1 <= index < |ht.chains| then
        (if entry == null then [] else tail) + Flatten(ht.chains[index + 1..])
      else []
    }

    /** dictGetIterator. */
    constructor (table: Dict<V>)
      requires table.Valid()
      ensures Valid() && ht == table && entry == null && Pending() == Flatten(table.chains)
    {
      hide Dict.Valid, Flatten, DictIterator.Valid, DictIterator.Pending;
      ht := table;
      index, entry, nextEntry, tail := -1, null, null, [];
      new;
      Started();
    }

    lemma Started()
      requires ht.Valid() && this !in ht.repr && index == -1 && entry == null && nextEntry == null
      ensures Valid() && Pending() == Flatten(ht.chains)
    {
      hide Dict.Valid, Dict.Linked, Dict.Stands, Flatten, Suffix;
      ht.OneChainPerBucket();
      assert ht.chains[0..] == ht.chains;
    }

    /** dictNext. The link to the entry after it is saved, as the caller may delete what it is given. */
    method Next() returns (e: Entry?<V>)
      requires Valid()
      modifies this
      ensures Valid() && e == entry
      ensures e == null <==> old(Pending()) == []
      ensures e != null ==> e == old(Pending())[0] && Pending() == old(Pending())[1..] && Given(e)
    {
      hide Dict.Valid, Suffix, Flatten, Given, Index, Pending;
      while true
        invariant Valid() && Pending() == old(Pending())
        decreases ht.size - index, if entry == null then 0 else 1
      {
        var more := Advance();
        if !more { break; }
        if entry != null {
          Save();
          return entry;
        }
      }
      return null;
    }

    /** The head of the next bucket, or the entry saved by the turn before; false past the last bucket. */
    method Advance() returns (more: bool)
      requires Valid()
      modifies this`index, this`entry, this`tail
      ensures this !in ht.repr && ht.Valid() && ht.size == |ht.chains| && -1 <= old(index) <= index
      ensures more ==> index < ht.size
      ensures more && old(entry) == null ==> index > old(index)
      ensures entry == null ==> Valid() && Pending() == old(Pending())
      ensures !more ==> entry == null && Pending() == []
      ensures entry != null ==>
                && 0 <= index && Suffix(tail, ht.chains[index]) && tail != [] && entry == tail[0]
                && old(Pending()) == tail + Flatten(ht.chains[index + 1..])
    {
      hide Dict.Valid, Suffix, Flatten, Index;
      if entry == null {
        index := index + 1;
        if index >= ht.size {
          PastTheEnd();
          return false;
        }
        FirstOf();
        entry := ht.table[index];
        if entry != null { tail := ht.chains[index]; }
      } else {
        entry := nextEntry;
      }
      return true;
    }

    /** The link to the entry after the one about to be returned. */
    method Save()
      requires this !in ht.repr && ht.Valid() && ht.size == |ht.chains| && 0 <= index < ht.size
      requires Suffix(tail, ht.chains[index]) && tail != [] && entry == tail[0]
      modifies this`nextEntry, this`tail
      ensures Valid() && Given(entry)
      ensures old(tail) + Flatten(ht.chains[index + 1..]) == [entry] + Pending()
    {
      hide Dict.Valid, Suffix, Index, Flatten;
      Following();
      nextEntry := entry.next;
      tail := tail[1..];
    }

    /** The entry just returned is in front of the tail. */
    ghost predicate Given(e: Entry<V>)
      reads this, ht
    {
      && 0 <= index < ht.size == |ht.chains| && Index(e.key, ht.size) == index
      && |tail| < |ht.chains[index]| && e == ht.chains[index][|ht.chains[index]| - |tail| - 1]
    }

    lemma PastTheEnd()
      requires entry == null && index >= ht.size == |ht.chains|
      ensures Pending() == [] && Flatten(ht.chains[ht.size..]) == []
    {
    }

    lemma FirstOf()
      requires ht.Valid() && ht.size == |ht.chains| && 0 <= index < ht.size
      ensures ht.table.Length == ht.size
      ensures ht.table[index] == if ht.chains[index] == [] then null else ht.chains[index][0]
      ensures Flatten(ht.chains[index..]) == ht.chains[index] + Flatten(ht.chains[index + 1..])
      ensures Suffix(ht.chains[index], ht.chains[index])
    {
      hide Flatten, Dict.Valid, Dict.Linked, Index, HoldsIn;
      ht.Facts();
      ht.Links(index);
      FlattenFrom(ht.chains, index);
    }

    lemma Following()
      requires ht.Valid() && ht.size == |ht.chains| && 0 <= index < ht.size
      requires Suffix(tail, ht.chains[index]) && tail != [] && entry == tail[0]
      ensures Suffix(tail[1..], ht.chains[index])
      ensures entry.next == if |tail| == 1 then null else tail[1]
      ensures Index(entry.key, ht.size) == index
      ensures |tail| <= |ht.chains[index]| && entry == ht.chains[index][|ht.chains[index]| - |tail|]
    {
      hide Dict.Valid, Dict.Linked;
      ht.Facts();
      ht.Links(index);
      ht.InBucket(index);
      SuffixStep(tail, ht.chains[index]);
    }

    /** The caller may delete the entry it was just given. */
    method DeleteCurrent()
      requires Valid() && entry != null && Given(entry) && ht.Valid()
      modifies ht, ht.repr
      ensures Valid() && ht.repr == old(ht.repr)
      ensures Pending() == old(Pending()) && ht.contents == old(ht.contents) - {entry.key}
      ensures entry.key in old(ht.contents)
    {
      hide Dict.Valid, Suffix, Flatten, Index, Dict.Linked;
      ghost var was, p := ht.chains, |ht.chains[index]| - |tail| - 1;
      ht.Facts();
      ht.InBucket(index);
      assert was[index][p] in was[index];
      var ok, j := ht.Delete(entry.key);
      SamePlace(was[index], j, p);
      ht.OneChainPerBucket();
      SuffixStays(tail, was[index], p);
      assert ht.chains[index + 1..] == was[index + 1..];
    }
  }

  lemma SamePlace<V>(chain: seq<Entry<V>>, i: nat, j: nat)
    requires i < |chain| && j < |chain| && DistinctKeys(chain) && chain[i].key == chain[j].key
    ensures i == j
  {
  }

  lemma SuffixStays<V>(tail: seq<Entry<V>>, chain: seq<Entry<V>>, p: nat)
    requires Suffix(tail, chain) && p + 1 + |tail| == |chain|
    ensures Suffix(tail, chain[..p] + chain[p + 1..])
  {
  }

  ghost function KeysOf<V>(entries: seq<Entry<V>>): (keys: seq<string>)
    ensures |keys| == |entries|
    ensures forall i :: 0 <= i < |entries| ==> keys[i] == entries[i].key
  {
    if entries == [] then [] else [entries[0].key] + KeysOf(entries[1..])
  }

  lemma {:induction false} FlattenHas<V>(chains: seq<seq<Entry<V>>>, e: Entry<V>)
    ensures e in Flatten(chains) <==> exists i :: 0 <= i < |chains| && e in chains[i]
  {
    if chains != [] {
      FlattenHas(chains[1..], e);
      if e in Flatten(chains[1..]) {
        var i :| 0 <= i < |chains[1..]| && e in chains[1..][i];
        assert e in chains[i + 1];
      }
      if i :| 0 < i < |chains| && e in chains[i] {
        assert e in chains[1..][i - 1];
      }
    }
  }

  lemma {:induction false} FlattenDistinct<V>(chains: seq<seq<Entry<V>>>, i: nat)
    requires i <= |chains| && |chains| > 0
    requires forall k :: 0 <= k < |chains| ==> AllIn(chains[k], |chains|, k) && DistinctKeys(chains[k])
    ensures DistinctKeys(Flatten(chains[i..]))
    ensures forall e :: e in Flatten(chains[i..]) ==> Index(e.key, |chains|) >= i
    decreases |chains| - i
  {
    hide Flatten, Index;
    if i < |chains| {
      FlattenFrom(chains, i);
      FlattenDistinct(chains, i + 1);
      var rest := Flatten(chains[i + 1..]);
      DistinctConcat(chains[i], rest);
    } else {
      assert chains[i..] == [];
      FlattenNothing<V>();
    }
  }

  lemma FlattenNothing<V>()
    ensures Flatten<V>([]) == []
  {
  }

  lemma DistinctConcat<V>(a: seq<Entry<V>>, b: seq<Entry<V>>)
    requires DistinctKeys(a) && DistinctKeys(b)
    requires forall x, y :: x in a && y in b ==> x.key != y.key
    ensures DistinctKeys(a + b)
  {
  }

  /** All keys of the map, none twice. */
  ghost predicate EachOnce<V>(keys: seq<string>, fields: map<string, V>) {
    && (forall k :: k in keys <==> k in fields)
    && (forall i, j :: 0 <= i < j < |keys| ==> keys[i] != keys[j])
  }

  /** The keys met by an iteration are those of the map, each once. */
  lemma EachKeyOnce<V>(ht: Dict<V>)
    requires ht.Valid()
    ensures EachOnce(KeysOf(Flatten(ht.chains)), ht.contents)
  {
    hide Dict.Valid, Dict.Linked, Flatten, Index, AllIn, DistinctKeys;
    ht.Facts();
    var all := Flatten(ht.chains);
    forall k ensures k in KeysOf(all) <==> k in ht.contents {
      KeyMet(ht, k);
    }
    if ht.chains != [] {
      forall k | 0 <= k < |ht.chains| ensures AllIn(ht.chains[k], |ht.chains|, k) && DistinctKeys(ht.chains[k]) {
        ht.InBucket(k);
      }
      assert ht.chains[0..] == ht.chains;
      FlattenDistinct(ht.chains, 0);
    } else {
      FlattenNothing<V>();
    }
    DistinctMeans(all);
  }

  lemma DistinctMeans<V>(entries: seq<Entry<V>>)
    requires DistinctKeys(entries)
    ensures forall i, j :: 0 <= i < j < |entries| ==> KeysOf(entries)[i] != KeysOf(entries)[j]
  {
  }

  lemma KeyMet<V>(ht: Dict<V>, k: string)
    requires ht.Valid()
    ensures k in KeysOf(Flatten(ht.chains)) <==> k in ht.contents
  {
    hide Dict.Valid, Dict.Linked, Flatten, Index;
    ht.Facts();
    var all := Flatten(ht.chains);
    if k in KeysOf(all) {
      var i :| 0 <= i < |all| && KeysOf(all)[i] == k;
      FlattenHas(ht.chains, all[i]);
    }
    if k in ht.contents {
      assert HoldsIn(ht.chains, k);
      var h := Index(k, |ht.chains|);
      var j :| 0 <= j < |ht.chains[h]| && ht.chains[h][j].key == k;
      var e: Entry<V> := ht.chains[h][j];
      assert e in ht.chains[h];
      FlattenHas(ht.chains, e);
      var i :| 0 <= i < |all| && all[i] == e;
      assert KeysOf(all)[i] == k;
    }
  }

  /** What is left of a map once the doomed among the visited keys are gone. */
  ghost predicate Spared<V>(now: map<string, V>, start: map<string, V>, visited: seq<string>, doomed: string -> bool) {
    forall k :: k in now <==> k in start && !(k in visited && doomed(k))
  }

  lemma SparedStep<V>(now: map<string, V>, start: map<string, V>, visited: seq<string>, key: string,
                      doomed: string -> bool)
    requires Spared(now, start, visited, doomed)
    ensures Spared(if doomed(key) then now - {key} else now, start, visited + [key], doomed)
  {
  }

  /** One turn of such an iteration: the next entry, which may be deleted. */
  method VisitNext<V>(iter: DictIterator<V>, doomed: string -> bool) returns (e: Entry?<V>)
    requires iter.Valid()
    modifies iter, iter.ht, iter.ht.repr
    ensures iter.Valid() && iter.ht.Valid() && iter.ht.repr == old(iter.ht.repr)
    ensures e == null ==> old(iter.Pending()) == [] && iter.ht.contents == old(iter.ht.contents)
    ensures e != null ==>
              && old(iter.Pending()) == [e] + iter.Pending()
              && iter.ht.contents == if doomed(e.key) then old(iter.ht.contents) - {e.key} else old(iter.ht.contents)
  {
    hide Dict.Valid, Flatten, DictIterator.Given, DictIterator.Pending, Index;
    e := iter.Next();
    if e != null && doomed(e.key) {
      iter.DeleteCurrent();
    }
  }

  /** A whole iteration, in which the caller deletes what it has no more use for: every key that the
      table held is given exactly once. */
  method VisitAll<V>(ht: Dict<V>, doomed: string -> bool) returns (visited: seq<string>)
    requires ht.Valid()
    modifies ht, ht.repr
    ensures ht.Valid()
    ensures EachOnce(visited, old(ht.contents))
    ensures Spared(ht.contents, old(ht.contents), visited, doomed)
  {
    hide Dict.Valid, Flatten, DictIterator.Valid, DictIterator.Pending, KeysOf, EachOnce;
    var iter := new DictIterator<V>(ht);
    visited := [];
    NoKeys<V>();
    EachKeyOnce(ht);
    ghost var all := KeysOf(Flatten(ht.chains));
    assert Spared(ht.contents, old(ht.contents), [], doomed);
    hide Spared;
    while true
      invariant iter.Valid() && ht.Valid() && iter.ht == ht && ht.repr == old(ht.repr) && fresh(iter)
      invariant visited + KeysOf(iter.Pending()) == all
      invariant Spared(ht.contents, old(ht.contents), visited, doomed)
      decreases |iter.Pending()|
    {
      ghost var pending := iter.Pending();
      ghost var now := ht.contents;
      var e := VisitNext(iter, doomed);
      if e == null { break; }
      VisitedStep(visited, e, iter.Pending());
      SparedStep(now, old(ht.contents), visited, e.key, doomed);
      visited := visited + [e.key];
    }
    assert visited + [] == visited;
  }

  lemma NoKeys<V>()
    ensures KeysOf<V>([]) == []
  {
  }

  lemma VisitedStep<V>(visited: seq<string>, e: Entry<V>, rest: seq<Entry<V>>)
    ensures visited + KeysOf([e] + rest) == visited + [e.key] + KeysOf(rest)
  {
    assert ([e] + rest)[1..] == rest;
    assert visited + ([e.key] + KeysOf(rest)) == visited + [e.key] + KeysOf(rest);
  }
}
