/** The chained, growing hash map of libbpf (hashmap.c, hashmap.h). */
module HashMaps {
  import opened Options
  import opened Words

  datatype Entry<K, V> = Entry(key: K, value: V)

  /** enum hashmap_insert_strategy. */
  datatype Strategy = Add | Set | Update | Append

  /** 0, -EEXIST, -ENOENT and -ENOMEM. */
  datatype Status = Ok | Exists | NoEntry | NoMemory

  const MIN_CAP_BITS: nat := 2
  const WORD_BITS: nat := 64
  /** calloc of 8-byte bucket pointers cannot succeed beyond this many bits. */
  const MAX_CAP_BITS: nat := 60
  const MULTIPLIER: nat := 11400714819323198485

  /** The 64-bit product of the hash and the multiplier. */
  function Shuffle(h: nat): nat {
    h * MULTIPLIER % Pow2(WORD_BITS)
  }

  /** The upper `bits` bits of the shuffled hash. A shift by the whole word,
      which C leaves undefined, gives 0; its result is never used. */
  function HashBits(h: nat, bits: nat): (b: nat)
    requires bits <= WORD_BITS
    ensures b < Pow2(bits)
  {
    ShiftRightBelow(Shuffle(h), WORD_BITS - bits, bits);
    ShiftRight(Shuffle(h), WORD_BITS - bits)
  }

  /** Doubling a table that is at most 75% full leaves room for one more. */
  lemma GrowthSuffices(sz: nat, bits: nat, newBits: nat)
    requires bits == 0 ==> sz == 0
    requires bits != 0 ==> sz * 4 / 3 <= Pow2(bits) && MIN_CAP_BITS <= bits
    requires newBits == if bits + 1 < MIN_CAP_BITS then MIN_CAP_BITS else bits + 1
    ensures sz * 4 / 3 <= Pow2(newBits) && (sz + 1) * 4 / 3 <= Pow2(newBits)
  {
    assert Pow2(2) == 4;
    if bits != 0 {
      assert Pow2(newBits) == 2 * Pow2(bits);
      Pow2AtLeast4(bits);
    }
  }

  lemma {:induction false} Pow2AtLeast4(n: nat)
    requires n >= 2
    ensures Pow2(n) >= 4
  {
    if n > 2 {
      Pow2AtLeast4(n - 1);
    }
  }

  /** All entries of all chains. */
  ghost function Flatten<T>(chains: seq<seq<T>>): multiset<T> {
    if chains == [] then multiset{} else multiset(chains[0]) + Flatten(chains[1..])
  }

  lemma {:induction false} FlattenUpdate<T>(chains: seq<seq<T>>, i: nat, chain: seq<T>)
    requires i < |chains|
    ensures multiset(chains[i]) <= Flatten(chains)
    ensures Flatten(chains[i := chain]) == Flatten(chains) - multiset(chains[i]) + multiset(chain)
  {
    if i == 0 {
      assert chains[i := chain][1..] == chains[1..];
    } else {
      FlattenUpdate(chains[1..], i - 1, chain);
      assert chains[i := chain][1..] == chains[1..][i - 1 := chain];
    }
  }

  lemma {:induction false} FlattenMember<T>(chains: seq<seq<T>>, e: T)
    ensures e in Flatten(chains) <==> exists i :: 0 <= i < |chains| && e in chains[i]
  {
    if chains != [] {
      FlattenMember(chains[1..], e);
      if i :| 0 <= i < |chains| && e in chains[i] {
        if i > 0 {
          assert e in chains[1..][i - 1];
        }
      }
      if i :| 0 <= i < |chains[1..]| && e in chains[1..][i] {
        assert e in chains[i + 1];
      }
    }
  }

  function EmptyChains<T>(n: nat): (chains: seq<seq<T>>) {
    seq(n, _ => [])
  }

  lemma {:induction false} FlattenEmpty<T>(n: nat)
    ensures Flatten(EmptyChains<T>(n)) == multiset{}
  {
    if n > 0 {
      FlattenEmpty<T>(n - 1);
      assert EmptyChains<T>(n)[1..] == EmptyChains<T>(n - 1);
    }
  }

  /** No key occurs twice: what a map that never saw Append looks like. */
  ghost predicate UniqueKeys<K, V>(es: multiset<Entry<K, V>>) {
    && (forall e :: e in es ==> es[e] == 1)
    && (forall e, f :: e in es && f in es && e.key == f.key ==> e == f)
  }

  /** The dictionary that entries with unique keys stand for. */
  ghost function Dictionary<K, V>(es: multiset<Entry<K, V>>): map<K, V>
    requires UniqueKeys(es)
  {
    map e | e in es :: e.key := e.value
  }

  ghost predicate HasKey<K, V>(es: multiset<Entry<K, V>>, key: K) {
    exists e :: e in es && e.key == key
  }

  lemma UniqueAfterAdd<K, V>(es: multiset<Entry<K, V>>, e: Entry<K, V>)
    requires UniqueKeys(es) && !HasKey(es, e.key)
    ensures UniqueKeys(es + multiset{e})
  {
    assert e !in es;
  }

  lemma DictionaryAdd<K, V>(es: multiset<Entry<K, V>>, e: Entry<K, V>)
    requires UniqueKeys(es) && !HasKey(es, e.key)
    ensures UniqueKeys(es + multiset{e})
    ensures Dictionary(es + multiset{e}) == Dictionary(es)[e.key := e.value]
  {
    UniqueAfterAdd(es, e);
    var d := Dictionary(es)[e.key := e.value];
    DictionaryKeys(es, e.key);
    forall f | f in es + multiset{e}
      ensures f.key in d && d[f.key] == f.value
    {
      assert f in es || f == e;
    }
    forall k | k in d
      ensures HasKey(es + multiset{e}, k)
    {
      if k == e.key {
        assert e in es + multiset{e};
      } else {
        var f :| f in es && f.key == k;
        assert f in es + multiset{e};
      }
    }
    DictionaryIs(es + multiset{e}, d);
  }

  /** A map that has the entries and nothing else is the dictionary. */
  lemma DictionaryIs<K, V>(es: multiset<Entry<K, V>>, d: map<K, V>)
    requires UniqueKeys(es)
    requires forall f :: f in es ==> f.key in d && d[f.key] == f.value
    requires forall k :: k in d ==> HasKey(es, k)
    ensures Dictionary(es) == d
  {
    DictionaryMembers(es);
    assert Dictionary(es).Keys == d.Keys;
  }

  lemma DictionaryMembers<K, V>(es: multiset<Entry<K, V>>)
    requires UniqueKeys(es)
    ensures forall f :: f in es ==> f.key in Dictionary(es) && Dictionary(es)[f.key] == f.value
    ensures forall k :: k in Dictionary(es) ==> HasKey(es, k)
  {
  }

  lemma UniqueAfterRemove<K, V>(es: multiset<Entry<K, V>>, e: Entry<K, V>)
    requires UniqueKeys(es) && e in es
    ensures UniqueKeys(es - multiset{e}) && !HasKey(es - multiset{e}, e.key)
    ensures forall f :: f in es - multiset{e} <==> f in es && f != e
  {
  }

  lemma DictionaryRemove<K, V>(es: multiset<Entry<K, V>>, e: Entry<K, V>)
    requires UniqueKeys(es) && e in es
    ensures UniqueKeys(es - multiset{e}) && !HasKey(es - multiset{e}, e.key)
    ensures Dictionary(es - multiset{e}) == Dictionary(es) - {e.key}
  {
    UniqueAfterRemove(es, e);
    var d := Dictionary(es) - {e.key};
    DictionaryMembers(es);
    forall k | k in d
      ensures HasKey(es - multiset{e}, k)
    {
      var f :| f in es && f.key == k;
      assert f in es - multiset{e};
    }
    DictionaryIs(es - multiset{e}, d);
  }

  /** Each entry is in the chain selected by the top bits of its key's hash. */
  ghost predicate Placed<K, V>(chains: seq<seq<Entry<K, V>>>, hashFn: K -> nat, bits: nat)
    requires bits <= WORD_BITS
  {
    forall i, e :: 0 <= i < |chains| && e in chains[i] ==> HashBits(hashFn(e.key), bits) == i
  }

  /** What replacing one chain does to placement and to the entries. */
  lemma ReplaceChain<K, V>(chains: seq<seq<Entry<K, V>>>, hashFn: K -> nat, bits: nat,
                           at: nat, chain: seq<Entry<K, V>>)
    requires bits <= WORD_BITS && Placed(chains, hashFn, bits)
    requires at < |chains|
    requires forall e :: e in chain ==> HashBits(hashFn(e.key), bits) == at
    ensures Placed(chains[at := chain], hashFn, bits)
    ensures multiset(chains[at]) <= Flatten(chains)
    ensures Flatten(chains[at := chain]) == Flatten(chains) - multiset(chains[at]) + multiset(chain)
  {
    FlattenUpdate(chains, at, chain);
  }

  function Without<T>(chain: seq<T>, pos: nat): seq<T>
    requires pos < |chain|
  {
    chain[..pos] + chain[pos + 1..]
  }

  lemma WithoutOne<T>(chain: seq<T>, pos: nat)
    requires pos < |chain|
    ensures multiset(chain) == multiset(Without(chain, pos)) + multiset{chain[pos]}
  {
    assert chain == chain[..pos] + [chain[pos]] + chain[pos + 1..];
  }

  lemma ExchangePart<T>(whole: multiset<T>, part: multiset<T>, rest: multiset<T>, x: T)
    requires part <= whole && part == rest + multiset{x}
    ensures x in whole && whole - part + rest == whole - multiset{x}
    ensures |whole - multiset{x}| == |whole| - 1
  {
  }

  lemma AddBack<T>(whole: multiset<T>, part: multiset<T>, rest: multiset<T>, e: T)
    requires part <= whole
    ensures whole - part + (rest + multiset{e}) == whole - part + rest + multiset{e}
  {
  }

  /** Pushing an entry on the head of its chain adds exactly that entry. */
  lemma PushEntry<K, V>(chains: seq<seq<Entry<K, V>>>, hashFn: K -> nat, bits: nat, at: nat, e: Entry<K, V>)
    requires bits <= WORD_BITS && Placed(chains, hashFn, bits)
    requires at < |chains| && at == HashBits(hashFn(e.key), bits)
    ensures Placed(chains[at := [e] + chains[at]], hashFn, bits)
    ensures Flatten(chains[at := [e] + chains[at]]) == Flatten(chains) + multiset{e}
    ensures |Flatten(chains) + multiset{e}| == |Flatten(chains)| + 1
  {
    ReplaceChain(chains, hashFn, bits, at, [e] + chains[at]);
    assert multiset([e] + chains[at]) == multiset{e} + multiset(chains[at]);
  }

  /** Unlinking one entry removes exactly that entry. */
  lemma DropEntry<K, V>(chains: seq<seq<Entry<K, V>>>, hashFn: K -> nat, bits: nat, at: nat, pos: nat)
    requires bits <= WORD_BITS && Placed(chains, hashFn, bits)
    requires at < |chains| && pos < |chains[at]|
    ensures Placed(chains[at := Without(chains[at], pos)], hashFn, bits)
    ensures Flatten(chains[at := Without(chains[at], pos)]) == Flatten(chains) - multiset{chains[at][pos]}
    ensures chains[at][pos] in Flatten(chains)
    ensures |Flatten(chains) - multiset{chains[at][pos]}| == |Flatten(chains)| - 1
  {
    var chain := chains[at];
    ReplaceChain(chains, hashFn, bits, at, Without(chain, pos));
    WithoutOne(chain, pos);
    ExchangePart(Flatten(chains), multiset(chain), multiset(Without(chain, pos)), chain[pos]);
  }

  /** Overwriting one entry by another with the same key exchanges the two. */
  lemma SwapEntry<K, V>(chains: seq<seq<Entry<K, V>>>, hashFn: K -> nat, bits: nat,
                        at: nat, pos: nat, e: Entry<K, V>)
    requires bits <= WORD_BITS && Placed(chains, hashFn, bits)
    requires at < |chains| && pos < |chains[at]| && chains[at][pos].key == e.key
    ensures Placed(chains[at := chains[at][pos := e]], hashFn, bits)
    ensures Flatten(chains[at := chains[at][pos := e]]) == Flatten(chains) - multiset{chains[at][pos]} + multiset{e}
    ensures chains[at][pos] in Flatten(chains)
    ensures |Flatten(chains) - multiset{chains[at][pos]} + multiset{e}| == |Flatten(chains)|
  {
    var chain := chains[at];
    ReplaceChain(chains, hashFn, bits, at, chain[pos := e]);
    WithoutOne(chain, pos);
    WithoutOne(chain[pos := e], pos);
    assert Without(chain[pos := e], pos) == Without(chain, pos);
    ExchangePart(Flatten(chains), multiset(chain), multiset(Without(chain, pos)), chain[pos]);
    AddBack(Flatten(chains), multiset(chain), multiset(Without(chain, pos)), e);
  }

  /** The entries once `e` is in and the displaced entry, if any, is out. */
  ghost function AfterInsert<K, V>(es: multiset<Entry<K, V>>, e: Entry<K, V>, displaced: Option<Entry<K,
                                   V>>): multiset<Entry<K, V>> {
    (if displaced.Some? then es - multiset{displaced.value} else es) + multiset{e}
  }

  lemma DictionaryAfterInsert<K, V>(es: multiset<Entry<K, V>>, e: Entry<K, V>, displaced: Option<Entry<K, V>>)
    requires UniqueKeys(es)
    requires displaced == None ==> !HasKey(es, e.key)
    requires displaced.Some? ==> displaced.value in es && displaced.value.key == e.key
    ensures UniqueKeys(AfterInsert(es, e, displaced))
    ensures Dictionary(AfterInsert(es, e, displaced)) == Dictionary(es)[e.key := e.value]
  {
    if displaced == None {
      DictionaryAdd(es, e);
    } else {
      DictionaryRemove(es, displaced.value);
      DictionaryAdd(es - multiset{displaced.value}, e);
      ReAdd(Dictionary(es), e.key, e.value);
    }
  }

  lemma ReAdd<K, V>(d: map<K, V>, key: K, value: V)
    ensures (d - {key})[key := value] == d[key := value]
  {
  }

  lemma DictionaryKeys<K, V>(es: multiset<Entry<K, V>>, key: K)
    requires UniqueKeys(es)
    ensures key in Dictionary(es) <==> HasKey(es, key)
  {
    DictionaryMembers(es);
  }

  /** `values` are the values under `key` in `es`, as often as they occur. */
  ghost predicate KeyValues<K, V(!new)>(values: seq<V>, es: seq<Entry<K, V>>, key: K) {
    forall v :: multiset(values)[v] == multiset(es)[Entry(key, v)]
  }

  lemma KeyStep<K, V(!new)>(values: seq<V>, es: seq<Entry<K, V>>, e: Entry<K, V>, key: K)
    requires KeyValues(values, es, key)
    ensures KeyValues(if e.key == key then values + [e.value] else values, es + [e], key)
  {
  }

  class HashMap<K(==), V(==, !new)> {
    const hashFn: K -> nat
    var buckets: seq<seq<Entry<K, V>>>
    var cap: nat
    var capBits: nat
    var sz: nat

    /** Chain in which a key belongs. */
    function Slot(key: K): (h: nat)
      requires capBits <= WORD_BITS
      reads this
      ensures h < Pow2(capBits)
    {
      HashBits(hashFn(key), capBits)
    }

    ghost predicate Valid()
      reads this
    {
      && |buckets| == cap
      && capBits <= MAX_CAP_BITS
      && (cap == 0 ==> capBits == 0)
      && (cap != 0 ==> capBits >= MIN_CAP_BITS && cap == Pow2(capBits))
      && Placed(buckets, hashFn, capBits)
      && sz == |Entries()|
      && sz * 4 / 3 <= cap
    }

    ghost function Entries(): multiset<Entry<K, V>>
      reads this
    {
      Flatten(buckets)
    }

    constructor (hashFn: K -> nat)
      ensures Valid() && Entries() == multiset{}
      ensures this.hashFn == hashFn
    {
      this.hashFn := hashFn;
      buckets, cap, capBits, sz := [], 0, 0, 0;
    }

    /** Every entry with this key sits in the chain the key selects. */
    lemma KeyInSlot(e: Entry<K, V>)
      requires Valid()
      ensures e in Entries() <==> cap != 0 && e in buckets[Slot(e.key)]
    {
      FlattenMember(buckets, e);
    }

    predicate NeedsToGrow()
      reads this
    {
      cap == 0 || (sz + 1) * 4 / 3 > cap
    }

    method Grow() returns (ok: bool)
      requires Valid()
      modifies this
      ensures Valid() && Entries() == old(Entries())
      ensures ok <==> old(capBits) < MAX_CAP_BITS
      ensures ok ==> capBits == (if old(capBits) + 1 < MIN_CAP_BITS then MIN_CAP_BITS else old(capBits) + 1)
      ensures !ok ==> unchanged(this)
      ensures ok ==> !NeedsToGrow()
    {
      var newBits := capBits + 1;
      if newBits < MIN_CAP_BITS {
        newBits := MIN_CAP_BITS;
      }
      if newBits > MAX_CAP_BITS {
        return false;
      }
      var newBuckets := Rehash(buckets, newBits);
      GrowthSuffices(sz, capBits, newBits);
      cap, capBits, buckets := Pow2(newBits), newBits, newBuckets;
      return true;
    }

    /** The loop of the growth: move every entry, chain by chain. */
    method Rehash(chains: seq<seq<Entry<K, V>>>, bits: nat) returns (out: seq<seq<Entry<K, V>>>)
      requires bits <= WORD_BITS
      ensures |out| == Pow2(bits) && Placed(out, hashFn, bits)
      ensures Flatten(out) == Flatten(chains)
    {
      out := EmptyChains(Pow2(bits));
      FlattenEmpty<Entry<K, V>>(Pow2(bits));
      for bkt := 0 to |chains|
        invariant |out| == Pow2(bits) && Placed(out, hashFn, bits)
        invariant Flatten(out) == Flatten(chains[..bkt])
      {
        out := MoveChain(chains[bkt], out, bits);
        FlattenAppend(chains[..bkt], chains[bkt]);
        assert chains[..bkt + 1] == chains[..bkt] + [chains[bkt]];
      }
      assert chains[..|chains|] == chains;
    }

    /** One pass of the inner loop of the growth: push each entry of a chain
        onto the head of its new chain. */
    method MoveChain(chain: seq<Entry<K, V>>, into: seq<seq<Entry<K, V>>>, bits: nat)
      returns (out: seq<seq<Entry<K, V>>>)
      requires bits <= WORD_BITS && |into| == Pow2(bits)
      requires Placed(into, hashFn, bits)
      ensures |out| == |into| && Placed(out, hashFn, bits)
      ensures Flatten(out) == Flatten(into) + multiset(chain)
    {
      hide Placed, Flatten, HashBits, Pow2;
      out := into;
      for cur := 0 to |chain|
        invariant |out| == |into| && Placed(out, hashFn, bits)
        invariant Flatten(out) == Flatten(into) + multiset(chain[..cur])
      {
        var h := HashBits(hashFn(chain[cur].key), bits);
        PushEntry(out, hashFn, bits, h, chain[cur]);
        assert chain[..cur + 1] == chain[..cur] + [chain[cur]];
        out := out[h := [chain[cur]] + out[h]];
      }
      assert chain[..|chain|] == chain;
    }

    /** A key that is not in its slot is nowhere. */
    lemma NotInSlot(key: K, hash: nat)
      requires Valid() && cap != 0 && hash == Slot(key)
      requires forall j :: 0 <= j < |buckets[hash]| ==> buckets[hash][j].key != key
      ensures !HasKey(Entries(), key)
    {
      if e :| e in Entries() && e.key == key {
        KeyInSlot(e);
        assert false;
      }
    }

    /** First entry of the chain that has the key. */
    method FindEntry(key: K, hash: nat) returns (found: bool, pos: nat)
      requires Valid() && (cap != 0 ==> hash == Slot(key))
      ensures found <==> HasKey(Entries(), key)
      ensures found ==> cap != 0 && pos < |buckets[hash]| && buckets[hash][pos].key == key
      ensures found ==> (forall j :: 0 <= j < pos ==> buckets[hash][j].key != key) && buckets[hash][pos] in Entries()
    {
      if cap == 0 {
        FlattenNone();
        return false, 0;
      }
      pos := 0;
      while pos < |buckets[hash]|
        invariant pos <= |buckets[hash]|
        invariant forall j :: 0 <= j < pos ==> buckets[hash][j].key != key
      {
        if buckets[hash][pos].key == key {
          KeyInSlot(buckets[hash][pos]);
          return true, pos;
        }
        pos := pos + 1;
      }
      NotInSlot(key, hash);
      return false, pos;
    }

    lemma FlattenNone()
      requires Valid() && cap == 0
      ensures Entries() == multiset{}
    {
    }

    /** hashmap__insert: the entries after each strategy, and what is handed
        back of a replaced entry. */
    method Insert(key: K, value: V, strategy: Strategy) returns (status: Status, displaced: Option<Entry<K, V>>)
      requires Valid()
      modifies this
      ensures Valid()
      ensures displaced.Some? <==> strategy != Append && HasKey(old(Entries()), key)
      ensures displaced.Some? ==> displaced.value in old(Entries()) && displaced.value.key == key
      ensures status == NoEntry <==> strategy == Update && displaced == None
      ensures status == Exists <==> strategy == Add && displaced.Some?
      ensures status == NoMemory ==> old(capBits) >= MAX_CAP_BITS && displaced == None
      ensures status != Ok ==> Entries() == old(Entries())
      ensures status == Ok ==> Entries() == AfterInsert(old(Entries()), Entry(key, value), displaced)
    {
      displaced := None;
      var h := Slot(key);
      if strategy != Append {
        var found, pos := FindEntry(key, h);
        if found {
          displaced := Some(buckets[h][pos]);
          if strategy == Set || strategy == Update {
            Overwrite(h, pos, Entry(key, value));
            return Ok, displaced;
          }
          return Exists, displaced;
        }
      }
      if strategy == Update {
        return NoEntry, None;
      }
      status := PushNew(key, value);
    }

    /** The tail of hashmap__insert: grow when needed, then push the entry. */
    method PushNew(key: K, value: V) returns (status: Status)
      requires Valid()
      modifies this
      ensures Valid()
      ensures status == Ok || status == NoMemory
      ensures status == NoMemory ==> old(capBits) >= MAX_CAP_BITS && Entries() == old(Entries())
      ensures status == Ok ==> Entries() == old(Entries()) + multiset{Entry(key, value)}
    {
      if NeedsToGrow() {
        var ok := Grow();
        if !ok {
          return NoMemory;
        }
      }
      var h := Slot(key);
      PushEntry(buckets, hashFn, capBits, h, Entry(key, value));
      buckets := buckets[h := [Entry(key, value)] + buckets[h]];
      sz := sz + 1;
      status := Ok;
    }

    /** entry->key = key, entry->value = value. */
    method Overwrite(h: nat, pos: nat, e: Entry<K, V>)
      requires Valid() && h < cap && pos < |buckets[h]| && buckets[h][pos].key == e.key
      modifies this
      ensures Valid()
      ensures Entries() == old(Entries()) - multiset{old(buckets[h][pos])} + multiset{e}
    {
      SwapEntry(buckets, hashFn, capBits, h, pos, e);
      buckets := buckets[h := buckets[h][pos := e]];
    }

    method Find(key: K) returns (found: bool, value: Option<V>)
      requires Valid()
      ensures found <==> HasKey(Entries(), key)
      ensures found ==> value.Some? && Entry(key, value.value) in Entries()
      ensures !found ==> value == None
    {
      var h := Slot(key);
      var hit, pos := FindEntry(key, h);
      if !hit {
        return false, None;
      }
      return true, Some(buckets[h][pos].value);
    }

    method Delete(key: K) returns (found: bool, removed: Option<Entry<K, V>>)
      requires Valid()
      modifies this
      ensures Valid()
      ensures found <==> HasKey(old(Entries()), key)
      ensures found <==> removed.Some?
      ensures found ==> removed.value in old(Entries()) && removed.value.key == key
      ensures found ==> Entries() == old(Entries()) - multiset{removed.value}
      ensures !found ==> unchanged(this)
    {
      var h := Slot(key);
      var hit, pos := FindEntry(key, h);
      if !hit {
        return false, None;
      }
      removed := Some(buckets[h][pos]);
      DropEntry(buckets, hashFn, capBits, h, pos);
      buckets := buckets[h := Without(buckets[h], pos)];
      sz := sz - 1;
      found := true;
    }

    /** hashmap__for_each_key_entry: the values of exactly this key, with
        their multiplicities. */
    method KeyEntries(key: K) returns (values: seq<V>)
      requires Valid()
      ensures forall v :: multiset(values)[v] == Entries()[Entry(key, v)]
    {
      values := [];
      if cap == 0 {
        FlattenNone();
        return;
      }
      var chain := buckets[Slot(key)];
      for cur := 0 to |chain|
        invariant KeyValues(values, chain[..cur], key)
      {
        assert chain[..cur + 1] == chain[..cur] + [chain[cur]];
        KeyStep(values, chain[..cur], chain[cur], key);
        if chain[cur].key == key {
          values := values + [chain[cur].value];
        }
      }
      assert chain[..|chain|] == chain;
      InItsChainOnly(key);
    }

    lemma InItsChainOnly(key: K)
      requires Valid() && cap != 0
      ensures forall v :: Entries()[Entry(key, v)] == multiset(buckets[Slot(key)])[Entry(key, v)]
    {
      forall v
        ensures Entries()[Entry(key, v)] == multiset(buckets[Slot(key)])[Entry(key, v)]
      {
        OneChain(buckets, Slot(key), Entry(key, v));
      }
    }

    /** hashmap__add, hashmap__set, hashmap__update and hashmap__delete on a
        map with unique keys act on the dictionary it stands for. */
    method DictionaryInsert(key: K, value: V, strategy: Strategy) returns (status: Status)
      requires Valid() && UniqueKeys(Entries()) && strategy != Append
      modifies this
      ensures Valid() && UniqueKeys(Entries())
      ensures status == Exists <==> strategy == Add && key in old(Dictionary(Entries()))
      ensures status == NoEntry <==> strategy == Update && key !in old(Dictionary(Entries()))
      ensures status == Ok ==> Dictionary(Entries()) == old(Dictionary(Entries()))[key := value]
      ensures status != Ok ==> Dictionary(Entries()) == old(Dictionary(Entries()))
    {
      ghost var before := Entries();
      DictionaryKeys(before, key);
      var displaced;
      status, displaced := Insert(key, value, strategy);
      if status == Ok {
        DictionaryAfterInsert(before, Entry(key, value), displaced);
      }
    }

    method DictionaryDelete(key: K) returns (found: bool)
      requires Valid() && UniqueKeys(Entries())
      modifies this
      ensures Valid() && UniqueKeys(Entries())
      ensures found <==> key in old(Dictionary(Entries()))
      ensures Dictionary(Entries()) == old(Dictionary(Entries())) - {key}
    {
      ghost var before := Entries();
      var removed;
      found, removed := Delete(key);
      if found {
        DictionaryRemove(before, removed.value);
      }
    }
  }

  lemma {:induction false} FlattenAppend<T>(chains: seq<seq<T>>, chain: seq<T>)
    ensures Flatten(chains + [chain]) == Flatten(chains) + multiset(chain)
  {
    if chains == [] {
      assert (chains + [chain])[1..] == [];
    } else {
      FlattenAppend(chains[1..], chain);
      assert (chains + [chain])[1..] == chains[1..] + [chain];
    }
  }

  /** An element that can only be in one chain occurs as often in all chains as in that one. */
  lemma {:induction false} OneChain<T>(chains: seq<seq<T>>, at: nat, e: T)
    requires at < |chains|
    requires forall i :: 0 <= i < |chains| && i != at ==> e !in chains[i]
    ensures Flatten(chains)[e] == multiset(chains[at])[e]
  {
    if at == 0 {
      FlattenMember(chains[1..], e);
      assert forall i :: 0 <= i < |chains[1..]| ==> chains[1..][i] == chains[i + 1];
    } else {
      assert e !in chains[0];
      OneChain(chains[1..], at - 1, e);
    }
  }
}
