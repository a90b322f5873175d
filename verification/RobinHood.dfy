/**
  * The slots of the open-addressed hash table: cyclic positions, the Robin Hood order on
  * probe counts, and the insert and backward-shift loops as functions of the slots.
  */
module RobinHood {
  import opened BitMask
  import opened Collections
  import opened Options

  /**
    * A slot; `Free` is a slot whose probe count is zero, whatever bytes it still holds.
    * A stored element is its inline key, which hashing and comparing look at, and the rest of it.
    */
  datatype Slot<K, V> = Free | Taken(probe: nat, hash: nat, key: K, value: V)

  function Probe<K, V>(slot: Slot<K, V>): (n: nat)
  {
    if slot.Free? then 0 else slot.probe
  }

  // ---------------------------------------------------------------- cyclic positions

  function Next(i: nat, cap: nat): (r: nat)
    requires i < cap
    ensures r < cap
  {
    if i + 1 == cap then 0 else i + 1
  }

  /** The position `d` steps before `i`. */
  function Back(i: nat, d: nat, cap: nat): (r: nat)
    requires i < cap && d < cap
    ensures r < cap
  {
    if i >= d then i - d else i + cap - d
  }

  /** The number of steps forward from `a` to `b`. */
  function Dist(a: nat, b: nat, cap: nat): (d: nat)
    requires a < cap && b < cap
    ensures d < cap
  {
    if b >= a then b - a else b + cap - a
  }

  /** The slot a hash is first looked for in: its low bits, under a power-of-two capacity. */
  function Home(hash: nat, cap: nat): (r: nat)
    requires cap > 0
    ensures r < cap
  {
    And(hash, cap - 1)
  }

  // ---------------------------------------------------------------- the invariant

  /** A probe count grows by at most one from a slot to the next. */
  predicate OrderedAt<K, V>(s: seq<Slot<K, V>>, i: nat)
    requires i < |s|
  {
    Probe(s[Next(i, |s|)]) <= Probe(s[i]) + 1
  }

  /** A taken slot records its key's hash, and one plus its distance from the home of that hash. */
  predicate HomedAt<K, V>(s: seq<Slot<K, V>>, hash: K -> nat, i: nat)
    requires i < |s|
  {
    s[i].Taken? ==>
      && s[i].hash == hash(s[i].key)
      && s[i].probe == 1 + Dist(Home(s[i].hash, |s|), i, |s|)
  }

  predicate HasKey<K(==), V>(s: seq<Slot<K, V>>, k: K, i: nat)
    requires i < |s|
  {
    s[i].Taken? && s[i].key == k
  }

  ghost predicate Ordered<K, V>(s: seq<Slot<K, V>>)
  {
    forall i: nat | i < |s| :: OrderedAt(s, i)
  }

  ghost predicate Homed<K, V>(s: seq<Slot<K, V>>, hash: K -> nat)
  {
    forall i: nat | i < |s| :: HomedAt(s, hash, i)
  }

  ghost predicate Distinct<K(!new), V>(s: seq<Slot<K, V>>)
  {
    forall i: nat, j: nat, k | i < |s| && j < |s| && HasKey(s, k, i) && HasKey(s, k, j) :: i == j
  }

  ghost predicate WellFormed<K(!new), V>(s: seq<Slot<K, V>>, hash: K -> nat)
  {
    |s| >= 4 && Ordered(s) && Homed(s, hash) && Distinct(s)
  }

  ghost predicate Present<K, V>(s: seq<Slot<K, V>>, k: K)
  {
    exists i: nat :: i < |s| && HasKey(s, k, i)
  }

  /** The slots hold exactly the entries of `m`. */
  ghost predicate Holds<K(!new), V>(s: seq<Slot<K, V>>, m: map<K, V>)
  {
    && (forall i: nat, k | i < |s| && HasKey(s, k, i) :: k in m && m[k] == s[i].value)
    && (forall k | k in m :: Present(s, k))
  }

  /** Nothing with key `k` lies within `d` steps of position `home`. */
  ghost predicate NotWithin<K, V>(s: seq<Slot<K, V>>, k: K, home: nat, d: nat)
    requires home < |s|
  {
    forall j: nat | j < |s| && HasKey(s, k, j) :: Dist(home, j, |s|) >= d
  }

  // ---------------------------------------------------------------- consequences of the order

  /** Going back `d` steps lowers a probe count by at most `d`. */
  lemma {:induction false} ProbeChain<K, V>(s: seq<Slot<K, V>>, i: nat, d: nat)
    requires Ordered(s) && i < |s| && d < |s|
    ensures Probe(s[Back(i, d, |s|)]) + d >= Probe(s[i])
  {
    if d > 0 {
      ProbeChain(s, i, d - 1);
      assert OrderedAt(s, Back(i, d, |s|));
    }
  }

  /** With a free slot `z`, no probe count exceeds the distance back to `z`. */
  lemma {:induction false} ProbeBelowDistance<K, V>(s: seq<Slot<K, V>>, i: nat, z: nat)
    requires Ordered(s) && i < |s| && z < |s| && s[z].Free?
    ensures Probe(s[i]) <= Dist(z, i, |s|)
  {
    ProbeChain(s, i, Dist(z, i, |s|));
  }

  /** A slot poorer than a searched key would be there ends the search: the key is not beyond it. */
  lemma {:induction false} PoorerSlotEndsSearch<K(!new), V>(s: seq<Slot<K, V>>, hash: K -> nat, k: K, i: nat)
    requires WellFormed(s, hash) && i < |s|
    requires Probe(s[i]) <= Dist(Home(hash(k), |s|), i, |s|)
    requires NotWithin(s, k, Home(hash(k), |s|), Dist(Home(hash(k), |s|), i, |s|))
    ensures !Present(s, k)
  {
    var home := Home(hash(k), |s|);
    var d := Dist(home, i, |s|);
    forall j: nat | j < |s| && HasKey(s, k, j)
      ensures false
    {
      var e := Dist(home, j, |s|);
      assert HomedAt(s, hash, j);
      ProbeChain(s, j, e - d);
    }
  }

  ghost function SegmentKeys<K(!new), V>(s: seq<Slot<K, V>>, i: nat, n: nat): (ks: set<K>)
    requires Distinct(s) && i < |s| && n <= |s|
    requires forall t: nat | t < n :: s[Back(i, t, |s|)].Taken?
    ensures |ks| == n
    ensures forall k | k in ks :: exists t: nat :: t < n && HasKey(s, k, Back(i, t, |s|))
  {
    if n == 0 then {} else
      var rest := SegmentKeys(s, i, n - 1);
      var k := s[Back(i, n - 1, |s|)].key;
      assert HasKey(s, k, Back(i, n - 1, |s|));
      assert k !in rest;
      rest + {k}
  }

  /** `n` taken slots in a row hold `n` different keys of the map. */
  lemma {:induction false} SegmentWithinMap<K(!new), V>(s: seq<Slot<K, V>>, m: map<K, V>, i: nat, n: nat)
    requires Distinct(s) && Holds(s, m) && i < |s| && n <= |s|
    requires forall t: nat | t < n :: s[Back(i, t, |s|)].Taken?
    ensures n <= |m|
  {
    var ks := SegmentKeys(s, i, n);
    assert ks <= m.Keys;
    SubsetCard(ks, m.Keys);
  }

  /** A probe count never exceeds the number of stored elements. */
  lemma {:induction false} ProbeWithinCount<K(!new), V>(s: seq<Slot<K, V>>, m: map<K, V>, i: nat, z: nat)
    requires Ordered(s) && Distinct(s) && Holds(s, m)
    requires i < |s| && z < |s| && s[z].Free?
    ensures Probe(s[i]) <= |m|
  {
    ProbeBelowDistance(s, i, z);
    forall t: nat | t < Probe(s[i])
      ensures s[Back(i, t, |s|)].Taken?
    {
      ProbeChain(s, i, t);
    }
    SegmentWithinMap(s, m, i, Probe(s[i]));
  }

  /** Fewer elements than slots leave a free slot. */
  lemma {:induction false} FreeSlot<K(!new), V>(s: seq<Slot<K, V>>, m: map<K, V>) returns (z: nat)
    requires Distinct(s) && Holds(s, m) && |m| < |s|
    ensures z < |s| && s[z].Free?
  {
    if forall i | 0 <= i < |s| :: s[i].Taken? {
      SegmentWithinMap(s, m, 0, |s|);
    }
    z :| 0 <= z < |s| && s[z].Free?;
  }

  lemma {:induction false} AllFreeIsEmpty<K(!new), V>(s: seq<Slot<K, V>>, hash: K -> nat)
    requires |s| >= 4 && forall i | 0 <= i < |s| :: s[i].Free?
    ensures WellFormed(s, hash) && Holds(s, map[])
  {
  }

  // ---------------------------------------------------------------- inserting

  /** The probe count is stored in sixteen bits. */
  const PROBE_LIMIT: nat := 0x1_0000

  function Increment16(p: nat): (r: nat)
    ensures p + 1 < PROBE_LIMIT ==> r == p + 1
  {
    (p + 1) % PROBE_LIMIT
  }

  function Lookup<K(==), V>(m: map<K, V>, k: K): (r: Option<V>)
  {
    if k in m then Some(m[k]) else None
  }

  /** The slots and the replaced value after inserting `c` from slot `i` on; `z` is a free slot. */
  ghost function InsertFrom<K, V>(s: seq<Slot<K, V>>, c: Slot<K, V>, i: nat, z: nat)
    : (r: (seq<Slot<K, V>>, Option<V>))
    requires c.Taken? && i < |s| && z < |s| && s[z].Free?
    decreases Dist(i, z, |s|)
  {
    if s[i].Free? then
      (s[i := c], None)
    else if s[i].hash == c.hash && s[i].key == c.key then
      (s[i := c], Some(s[i].value))
    else if s[i].probe < c.probe then
      InsertFrom(s[i := c], s[i].(probe := Increment16(s[i].probe)), Next(i, |s|), z)
    else
      InsertFrom(s, c.(probe := Increment16(c.probe)), Next(i, |s|), z)
  }

  /** The carried element `c` belongs at `i` by its hash, and the slot before allows its probe count. */
  ghost predicate Carried<K, V>(s: seq<Slot<K, V>>, hash: K -> nat, c: Slot<K, V>, i: nat)
  {
    && 4 <= |s| && i < |s| && c.Taken?
    && c.hash == hash(c.key)
    && c.probe == 1 + Dist(Home(c.hash, |s|), i, |s|)
    && c.probe <= Probe(s[Back(i, 1, |s|)]) + 1
  }

  /** Writing an element over a poorer slot, or over the same key, keeps the invariant. */
  lemma {:induction false} PlaceKeepsWellFormed<K(!new), V>(s: seq<Slot<K, V>>, hash: K -> nat, c: Slot<K, V>, i: nat)
    requires WellFormed(s, hash) && Carried(s, hash, c, i)
    requires Probe(s[i]) <= c.probe
    requires HasKey(s, c.key, i) || !Present(s, c.key)
    ensures WellFormed(s[i := c], hash)
  {
    var t := s[i := c];
    forall j: nat | j < |t|
      ensures OrderedAt(t, j) && HomedAt(t, hash, j)
    {
      assert OrderedAt(s, j) && HomedAt(s, hash, j);
    }
    forall j: nat, l: nat, k | j < |t| && l < |t| && HasKey(t, k, j) && HasKey(t, k, l)
      ensures j == l
    {
      assert j == i || HasKey(s, k, j);
      assert l == i || HasKey(s, k, l);
    }
  }

  /** What the slots hold after a write: the former element of the slot, if any, is gone. */
  lemma {:induction false} HoldsAfterWrite<K(!new), V>(s: seq<Slot<K, V>>, m: map<K, V>, c: Slot<K, V>, i: nat)
    requires Distinct(s) && Holds(s, m) && i < |s| && c.Taken?
    requires HasKey(s, c.key, i) || !Present(s, c.key)
    ensures Holds(s[i := c], (if s[i].Free? then m else m - {s[i].key})[c.key := c.value])
  {
    var t := s[i := c];
    var n := (if s[i].Free? then m else m - {s[i].key})[c.key := c.value];
    forall j: nat, k | j < |t| && HasKey(t, k, j)
      ensures k in n && n[k] == t[j].value
    {
      if j != i {
        assert HasKey(s, k, j);
        assert !HasKey(s, k, i);
      }
    }
    forall k | k in n
      ensures Present(t, k)
    {
      if k == c.key {
        assert HasKey(t, k, i);
      } else {
        assert Present(s, k);
        var j: nat :| j < |s| && HasKey(s, k, j);
        assert HasKey(t, k, j);
      }
    }
  }

  /**
    * An insert of `x := v` into a table holding `m` has reached slot `i` carrying `c`: either the new
    * element, its key not met so far, or an element that gave up its slot to the one carried before.
    */
  ghost predicate Inserting<K(!new), V>(s: seq<Slot<K, V>>, hash: K -> nat, m: map<K, V>,
                                        x: K, v: V, c: Slot<K, V>, i: nat, displaced: bool)
  {
    && WellFormed(s, hash) && Carried(s, hash, c, i)
    && if displaced then
         && x !in m && c.key in m[x := v] && m[x := v][c.key] == c.value
         && !Present(s, c.key) && Holds(s, m[x := v] - {c.key})
       else
         && c.key == x && c.value == v && Holds(s, m)
         && NotWithin(s, x, Home(hash(x), |s|), c.probe - 1)
  }

  /** At a poorer slot the carried key is certainly not in the table. */
  lemma {:induction false} CarriedIsNew<K(!new), V>(s: seq<Slot<K, V>>, hash: K -> nat, m: map<K, V>,
                                 x: K, v: V, c: Slot<K, V>, i: nat, displaced: bool)
    requires Inserting(s, hash, m, x, v, c, i, displaced) && Probe(s[i]) < c.probe
    ensures !Present(s, c.key) && x !in m
    ensures Holds(s, m[x := v] - {c.key}) && c.key in m[x := v] && m[x := v][c.key] == c.value
  {
    if !displaced {
      PoorerSlotEndsSearch(s, hash, x, i);
      assert m[x := v] - {x} == m;
    }
  }

  lemma {:induction false} InsertEnds<K(!new), V>(s: seq<Slot<K, V>>, hash: K -> nat, m: map<K, V>,
                               x: K, v: V, c: Slot<K, V>, i: nat, displaced: bool)
    requires Inserting(s, hash, m, x, v, c, i, displaced) && s[i].Free?
    ensures x !in m && WellFormed(s[i := c], hash) && Holds(s[i := c], m[x := v])
  {
    CarriedIsNew(s, hash, m, x, v, c, i, displaced);
    PlaceKeepsWellFormed(s, hash, c, i);
    HoldsAfterWrite(s, m[x := v] - {c.key}, c, i);
    assert (m[x := v] - {c.key})[c.key := c.value] == m[x := v];
  }

  /** A slot with the carried key is met only by the new element itself. */
  lemma {:induction false} InsertReplaces<K(!new), V>(s: seq<Slot<K, V>>, hash: K -> nat, m: map<K, V>,
                                   x: K, v: V, c: Slot<K, V>, i: nat, displaced: bool)
    requires Inserting(s, hash, m, x, v, c, i, displaced) && HasKey(s, c.key, i)
    ensures x in m && m[x] == s[i].value
    ensures WellFormed(s[i := c], hash) && Holds(s[i := c], m[x := v])
  {
    assert HomedAt(s, hash, i);
    PlaceKeepsWellFormed(s, hash, c, i);
    HoldsAfterWrite(s, m, c, i);
    assert (m - {x})[x := v] == m[x := v];
  }

  lemma {:induction false} AdvanceCarried<K(!new), V>(s: seq<Slot<K, V>>, hash: K -> nat, c: Slot<K, V>, i: nat, z: nat)
    requires WellFormed(s, hash) && i < |s| && z < |s| && s[z].Free?
    requires c.Taken? && c.hash == hash(c.key)
    requires c.probe == 1 + Dist(Home(c.hash, |s|), i, |s|) && c.probe <= Probe(s[i])
    ensures Carried(s, hash, c.(probe := c.probe + 1), Next(i, |s|))
  {
    ProbeBelowDistance(s, i, z);
  }

  lemma {:induction false} InsertSwaps<K(!new), V>(s: seq<Slot<K, V>>, hash: K -> nat, m: map<K, V>,
                                x: K, v: V, c: Slot<K, V>, i: nat, displaced: bool, z: nat)
    requires Inserting(s, hash, m, x, v, c, i, displaced)
    requires s[i].Taken? && s[i].probe < c.probe && z < |s| && s[z].Free?
    ensures Inserting(s[i := c], hash, m, x, v, s[i].(probe := s[i].probe + 1), Next(i, |s|), true)
  {
    var t := s[i := c];
    var k := s[i].key;
    assert HasKey(s, k, i) && HomedAt(s, hash, i);
    CarriedIsNew(s, hash, m, x, v, c, i, displaced);
    PlaceKeepsWellFormed(s, hash, c, i);
    HoldsAfterWrite(s, m[x := v] - {c.key}, c, i);
    assert (m[x := v] - {c.key} - {k})[c.key := c.value] == m[x := v] - {k};
    AdvanceCarried(t, hash, s[i], i, z);
    forall j: nat | j < |t|
      ensures !HasKey(t, k, j)
    {
      assert j != i ==> !HasKey(s, k, j);
    }
  }

  lemma {:induction false} InsertPasses<K(!new), V>(s: seq<Slot<K, V>>, hash: K -> nat, m: map<K, V>,
                                 x: K, v: V, c: Slot<K, V>, i: nat, displaced: bool, z: nat)
    requires Inserting(s, hash, m, x, v, c, i, displaced)
    requires s[i].Taken? && s[i].probe >= c.probe && s[i].key != c.key && z < |s| && s[z].Free?
    ensures Inserting(s, hash, m, x, v, c.(probe := c.probe + 1), Next(i, |s|), displaced)
  {
    AdvanceCarried(s, hash, c, i, z);
  }

  lemma {:induction false} WithoutOne<K, V>(m: map<K, V>, k: K, v: V, l: K)
    requires l in m[k := v]
    ensures |m[k := v] - {l}| <= |m|
  {
    var n := m[k := v] - {l};
    assert n.Keys + {l} == m.Keys + {k};
    assert |n.Keys + {l}| == |n.Keys| + 1;
    assert |m.Keys + {k}| <= |m.Keys| + 1;
  }

  /** While inserting, no probe count in a slot exceeds the number of elements there were. */
  lemma {:induction false} InsertingProbeBound<K(!new), V>(s: seq<Slot<K, V>>, hash: K -> nat, m: map<K, V>,
                                        x: K, v: V, c: Slot<K, V>, i: nat, displaced: bool, z: nat, j: nat)
    requires Inserting(s, hash, m, x, v, c, i, displaced) && z < |s| && s[z].Free? && j < |s|
    ensures Probe(s[j]) <= |m| && c.probe <= |m| + 1
  {
    if displaced {
      ProbeWithinCount(s, m[x := v] - {c.key}, j, z);
      ProbeWithinCount(s, m[x := v] - {c.key}, Back(i, 1, |s|), z);
      WithoutOne(m, x, v, c.key);
    } else {
      ProbeWithinCount(s, m, j, z);
      ProbeWithinCount(s, m, Back(i, 1, |s|), z);
    }
  }

  /** One iteration of the insert loop, when sixteen bits suffice. */
  lemma {:induction false} InsertUnfolds<K, V>(s: seq<Slot<K, V>>, c: Slot<K, V>, i: nat, z: nat)
    requires c.Taken? && i < |s| && z < |s| && s[z].Free?
    ensures s[i].Free? ==> InsertFrom(s, c, i, z) == (s[i := c], None)
    ensures s[i].Taken? ==> Dist(Next(i, |s|), z, |s|) < Dist(i, z, |s|)
    ensures s[i].Taken? && s[i].hash == c.hash && s[i].key == c.key ==>
              InsertFrom(s, c, i, z) == (s[i := c], Some(s[i].value))
    ensures s[i].Taken? && s[i].key != c.key && s[i].probe < c.probe && s[i].probe + 1 < PROBE_LIMIT ==>
              InsertFrom(s, c, i, z) == InsertFrom(s[i := c], s[i].(probe := s[i].probe + 1), Next(i, |s|), z)
    ensures s[i].Taken? && s[i].key != c.key && c.probe <= s[i].probe && c.probe + 1 < PROBE_LIMIT ==>
              InsertFrom(s, c, i, z) == InsertFrom(s, c.(probe := c.probe + 1), Next(i, |s|), z)
  {
  }

  /** The slots hold `m` updated at `x`, and the replaced value is the one `m` had there. */
  ghost predicate Inserted<K(!new), V>(o: (seq<Slot<K, V>>, Option<V>), cap: nat,
                                       hash: K -> nat, m: map<K, V>, x: K, v: V)
  {
    |o.0| == cap && WellFormed(o.0, hash) && Holds(o.0, m[x := v]) && o.1 == Lookup(m, x)
  }

  /** The insert loop makes the table hold the updated map, and returns the value it replaced. */
  lemma {:induction false} InsertCorrect<K(!new), V>(s: seq<Slot<K, V>>, hash: K -> nat, m: map<K, V>,
                                                     x: K, v: V, c: Slot<K, V>, i: nat, displaced: bool, z: nat)
    requires Inserting(s, hash, m, x, v, c, i, displaced)
    requires |m| < PROBE_LIMIT - 1 && z < |s| && s[z].Free?
    ensures Inserted(InsertFrom(s, c, i, z), |s|, hash, m, x, v)
    decreases Dist(i, z, |s|)
  {
    InsertUnfolds(s, c, i, z);
    if s[i].Free? {
      InsertEnds(s, hash, m, x, v, c, i, displaced);
      return;
    }
    assert HomedAt(s, hash, i);
    if s[i].key == c.key {
      InsertReplaces(s, hash, m, x, v, c, i, displaced);
      return;
    }
    InsertingProbeBound(s, hash, m, x, v, c, i, displaced, z, i);
    if s[i].probe < c.probe {
      InsertSwaps(s, hash, m, x, v, c, i, displaced, z);
      InsertCorrect(s[i := c], hash, m, x, v, s[i].(probe := s[i].probe + 1), Next(i, |s|), true, z);
    } else {
      InsertPasses(s, hash, m, x, v, c, i, displaced, z);
      InsertCorrect(s, hash, m, x, v, c.(probe := c.probe + 1), Next(i, |s|), displaced, z);
    }
  }

  // ---------------------------------------------------------------- searching

  /** The slot where the search for key `k` from slot `i` on stops, if it stops at the key. */
  ghost function FindFrom<K, V>(s: seq<Slot<K, V>>, h: nat, k: K, i: nat, z: nat): (r: Option<nat>)
    requires i < |s| && z < |s| && s[z].Free?
    decreases Dist(i, z, |s|)
  {
    if s[i].Free? then None
    else if s[i].hash == h && s[i].key == k then Some(i)
    else FindFrom(s, h, k, Next(i, |s|), z)
  }

  lemma {:induction false} FindSteps<K(!new), V>(s: seq<Slot<K, V>>, hash: K -> nat, k: K, i: nat, z: nat)
    requires WellFormed(s, hash) && i < |s| && z < |s| && s[z].Free?
    requires NotWithin(s, k, Home(hash(k), |s|), Dist(Home(hash(k), |s|), i, |s|))
    requires s[i].Taken? && s[i].key != k
    requires Dist(Home(hash(k), |s|), i, |s|) + Dist(i, z, |s|) < |s|
    ensures NotWithin(s, k, Home(hash(k), |s|), Dist(Home(hash(k), |s|), Next(i, |s|), |s|))
    ensures Dist(Home(hash(k), |s|), Next(i, |s|), |s|) + Dist(Next(i, |s|), z, |s|) < |s|
    ensures Dist(Next(i, |s|), z, |s|) < Dist(i, z, |s|)
  {
  }

  /** The search finds the slot with the key, and finds none exactly when the key is absent. */
  lemma {:induction false} FindCorrect<K(!new), V>(s: seq<Slot<K, V>>, hash: K -> nat, k: K, i: nat, z: nat)
    requires WellFormed(s, hash) && i < |s| && z < |s| && s[z].Free?
    requires NotWithin(s, k, Home(hash(k), |s|), Dist(Home(hash(k), |s|), i, |s|))
    requires Dist(Home(hash(k), |s|), i, |s|) + Dist(i, z, |s|) < |s|
    ensures match FindFrom(s, hash(k), k, i, z)
            case None => !Present(s, k)
            case Some(j) => j < |s| && HasKey(s, k, j)
    decreases Dist(i, z, |s|)
  {
    if s[i].Free? {
      PoorerSlotEndsSearch(s, hash, k, i);
    } else {
      assert HomedAt(s, hash, i);
      if s[i].key != k {
        FindSteps(s, hash, k, i, z);
        FindCorrect(s, hash, k, Next(i, |s|), z);
      }
    }
  }

  // ---------------------------------------------------------------- removing

  /** The slot after the hole moved into it, one step nearer its home. */
  function Shifted<K, V>(s: seq<Slot<K, V>>, hole: nat): (t: seq<Slot<K, V>>)
    requires hole < |s| && s[Next(hole, |s|)].Taken? && s[Next(hole, |s|)].probe > 1
  {
    var j := Next(hole, |s|);
    s[hole := s[j].(probe := s[j].probe - 1)][j := Free]
  }

  /** The slots after shifting back the run behind `hole`; `z` is another free slot. */
  ghost function ShiftFrom<K, V>(s: seq<Slot<K, V>>, hole: nat, z: nat): (t: seq<Slot<K, V>>)
    requires hole < |s| && z < |s| && s[z].Free? && s[hole].Free? && z != hole
    decreases Dist(Next(hole, |s|), z, |s|)
  {
    if Probe(s[Next(hole, |s|)]) <= 1 then s
    else ShiftFrom(Shifted(s, hole), Next(hole, |s|), z)
  }

  /** All slots but the one after the hole keep the order, and that one may move into the hole. */
  ghost predicate Holed<K, V>(s: seq<Slot<K, V>>, hole: nat)
  {
    && |s| >= 4 && hole < |s| && s[hole].Free?
    && (forall i: nat | i < |s| && i != hole :: OrderedAt(s, i))
    && Probe(s[Next(hole, |s|)]) <= Probe(s[Back(hole, 1, |s|)]) + 2
  }

  lemma {:induction false} RemovalMakesHole<K(!new), V>(s: seq<Slot<K, V>>, hash: K -> nat, m: map<K, V>, i: nat)
    requires WellFormed(s, hash) && Holds(s, m) && i < |s| && s[i].Taken?
    ensures Holed(s[i := Free], i) && Homed(s[i := Free], hash) && Distinct(s[i := Free])
    ensures Holds(s[i := Free], m - {s[i].key})
  {
    var t := s[i := Free];
    forall j: nat | j < |t|
      ensures j != i ==> OrderedAt(t, j)
      ensures HomedAt(t, hash, j)
    {
      assert OrderedAt(s, j) && HomedAt(s, hash, j);
    }
    assert OrderedAt(s, Back(i, 1, |s|)) && OrderedAt(s, i);
    assert HasKey(s, s[i].key, i);
    forall j: nat, k | j < |t| && HasKey(t, k, j)
      ensures HasKey(s, k, j)
    {
    }
    forall k | k in m && k != s[i].key
      ensures Present(t, k)
    {
      assert Present(s, k);
      var j: nat :| j < |s| && HasKey(s, k, j);
      assert HasKey(t, k, j);
    }
  }

  lemma {:induction false} ShiftKeepsOrder<K, V>(s: seq<Slot<K, V>>, hole: nat)
    requires Holed(s, hole)
    requires s[Next(hole, |s|)].Taken? && s[Next(hole, |s|)].probe > 1
    ensures Holed(Shifted(s, hole), Next(hole, |s|))
  {
    var j := Next(hole, |s|);
    var t := Shifted(s, hole);
    assert OrderedAt(s, j);
    forall i: nat | i < |t| && i != j
      ensures OrderedAt(t, i)
    {
      if i != hole {
        assert OrderedAt(s, i);
      }
    }
  }

  lemma {:induction false} ShiftKeepsHomes<K, V>(s: seq<Slot<K, V>>, hash: K -> nat, hole: nat)
    requires |s| >= 4 && hole < |s| && Homed(s, hash)
    requires s[Next(hole, |s|)].Taken? && s[Next(hole, |s|)].probe > 1
    ensures Homed(Shifted(s, hole), hash)
  {
    var j := Next(hole, |s|);
    var t := Shifted(s, hole);
    forall i: nat | i < |t|
      ensures HomedAt(t, hash, i)
    {
      assert HomedAt(s, hash, i) && HomedAt(s, hash, j);
    }
  }

  lemma {:induction false} ShiftKeepsContents<K(!new), V>(s: seq<Slot<K, V>>, m: map<K, V>, hole: nat)
    requires |s| >= 4 && hole < |s| && s[hole].Free? && Distinct(s) && Holds(s, m)
    requires s[Next(hole, |s|)].Taken? && s[Next(hole, |s|)].probe > 1
    ensures Distinct(Shifted(s, hole)) && Holds(Shifted(s, hole), m)
  {
    var j := Next(hole, |s|);
    var t := Shifted(s, hole);
    forall i: nat, k | i < |t| && HasKey(t, k, i)
      ensures HasKey(s, k, if i == hole then j else i)
    {
    }
    forall k | k in m
      ensures Present(t, k)
    {
      assert Present(s, k);
      var i: nat :| i < |s| && HasKey(s, k, i);
      assert HasKey(t, k, if i == j then hole else i);
    }
  }

  lemma {:induction false} ShiftUnfolds<K, V>(s: seq<Slot<K, V>>, hole: nat, z: nat)
    requires hole < |s| && z < |s| && s[z].Free? && s[hole].Free? && z != hole
    ensures Probe(s[Next(hole, |s|)]) <= 1 ==> ShiftFrom(s, hole, z) == s
    ensures Probe(s[Next(hole, |s|)]) > 1 ==>
              var j := Next(hole, |s|);
              && j != z && Dist(Next(j, |s|), z, |s|) < Dist(j, z, |s|)
              && Shifted(s, hole)[z].Free? && Shifted(s, hole)[j].Free?
              && ShiftFrom(s, hole, z) == ShiftFrom(Shifted(s, hole), j, z)
  {
  }

  /** Closing the hole restores the whole invariant and keeps what the slots hold. */
  lemma {:induction false} ShiftCorrect<K(!new), V>(s: seq<Slot<K, V>>, hash: K -> nat, m: map<K, V>,
                                                    hole: nat, z: nat)
    requires Holed(s, hole) && Homed(s, hash) && Distinct(s) && Holds(s, m)
    requires z < |s| && s[z].Free? && z != hole
    ensures var t := ShiftFrom(s, hole, z);
            |t| == |s| && WellFormed(t, hash) && Holds(t, m)
    decreases Dist(Next(hole, |s|), z, |s|)
  {
    ShiftUnfolds(s, hole, z);
    if Probe(s[Next(hole, |s|)]) <= 1 {
      assert OrderedAt(s, hole);
    } else {
      ShiftKeepsOrder(s, hole);
      ShiftKeepsHomes(s, hash, hole);
      ShiftKeepsContents(s, m, hole);
      ShiftCorrect(Shifted(s, hole), hash, m, Next(hole, |s|), z);
    }
  }

  // ---------------------------------------------------------------- rebuilding

  ghost predicate PresentBefore<K, V>(s: seq<Slot<K, V>>, k: K, n: nat)
    requires n <= |s|
  {
    exists i: nat :: i < n && HasKey(s, k, i)
  }

  /** The first `n` slots hold exactly the entries of `m`. */
  ghost predicate HoldsBefore<K(!new), V>(s: seq<Slot<K, V>>, m: map<K, V>, n: nat)
    requires n <= |s|
  {
    && (forall i: nat, k | i < n && HasKey(s, k, i) :: k in m && m[k] == s[i].value)
    && (forall k | k in m :: PresentBefore(s, k, n))
  }

  lemma {:induction false} RebuildSkips<K(!new), V>(s: seq<Slot<K, V>>, i: nat, n: map<K, V>)
    requires i < |s| && s[i].Free? && HoldsBefore(s, n, i)
    ensures HoldsBefore(s, n, i + 1)
  {
    forall k | k in n
      ensures PresentBefore(s, k, i + 1)
    {
      assert PresentBefore(s, k, i);
    }
  }

  /** The keys copied so far are the map's, and the next one is not among them. */
  lemma {:induction false} RebuildFinds<K(!new), V>(s: seq<Slot<K, V>>, m: map<K, V>, i: nat, n: map<K, V>)
    requires Distinct(s) && Holds(s, m) && i < |s| && s[i].Taken? && HoldsBefore(s, n, i)
    ensures s[i].key !in n && |n| < |m|
  {
    var key := s[i].key;
    assert HasKey(s, key, i);
    forall k | k in n
      ensures k in m && k != key
    {
      assert PresentBefore(s, k, i);
      var j: nat :| j < i && HasKey(s, k, j);
    }
    assert n.Keys + {key} <= m.Keys;
    SubsetCard(n.Keys + {key}, m.Keys);
  }

  lemma {:induction false} RebuildCopies<K(!new), V>(s: seq<Slot<K, V>>, i: nat, n: map<K, V>)
    requires i < |s| && s[i].Taken? && s[i].key !in n && HoldsBefore(s, n, i)
    ensures HoldsBefore(s, n[s[i].key := s[i].value], i + 1)
  {
    var key := s[i].key;
    var n' := n[key := s[i].value];
    assert HasKey(s, key, i);
    forall k | k in n'
      ensures PresentBefore(s, k, i + 1)
    {
      assert k != key ==> PresentBefore(s, k, i);
    }
    forall j: nat, l | j < i + 1 && HasKey(s, l, j)
      ensures l in n' && n'[l] == s[j].value
    {
      assert j < i ==> l in n;
    }
  }

  /** A rebuild that has copied the first `i` slots copies slot `i` as a new key of the map. */
  lemma {:induction false} RebuildStep<K(!new), V>(s: seq<Slot<K, V>>, m: map<K, V>, i: nat, n: map<K, V>)
    requires Distinct(s) && Holds(s, m) && i < |s| && HoldsBefore(s, n, i)
    ensures s[i].Free? ==> HoldsBefore(s, n, i + 1)
    ensures s[i].Taken? ==> s[i].key !in n && |n| < |m| && HoldsBefore(s, n[s[i].key := s[i].value], i + 1)
  {
    if s[i].Free? {
      RebuildSkips(s, i, n);
    } else {
      RebuildFinds(s, m, i, n);
      RebuildCopies(s, i, n);
    }
  }

  /** A rebuild that has copied every slot has copied the map. */
  lemma {:induction false} RebuildEnds<K(!new), V>(s: seq<Slot<K, V>>, m: map<K, V>, n: map<K, V>)
    requires Holds(s, m) && HoldsBefore(s, n, |s|)
    ensures m == n
  {
    forall k | k in m || k in n
      ensures k in m && k in n && m[k] == n[k]
    {
      assert k in m ==> Present(s, k);
      assert k in n ==> PresentBefore(s, k, |s|);
      var i: nat :| i < |s| && HasKey(s, k, i);
    }
  }

  /** The entries of `m` in some order, each exactly once. */
  ghost predicate Lists<K, V>(entries: seq<(K, V)>, m: map<K, V>)
  {
    && (forall a, b | 0 <= a < b < |entries| :: entries[a].0 != entries[b].0)
    && (forall a | 0 <= a < |entries| :: entries[a].0 in m && m[entries[a].0] == entries[a].1)
    && (forall k | k in m :: exists a :: 0 <= a < |entries| && entries[a].0 == k)
  }

  lemma {:induction false} ListsAppend<K, V>(entries: seq<(K, V)>, m: map<K, V>, k: K, v: V)
    requires Lists(entries, m) && k !in m
    ensures Lists(entries + [(k, v)], m[k := v])
  {
    var es, n := entries + [(k, v)], m[k := v];
    forall l | l in n
      ensures exists a :: 0 <= a < |es| && es[a].0 == l
    {
      if l == k {
        assert es[|entries|].0 == l;
      } else {
        var a :| 0 <= a < |entries| && entries[a].0 == l;
        assert es[a].0 == l;
      }
    }
  }

  lemma {:induction false} WithoutKey<K, V>(m: map<K, V>, k: K)
    ensures k in m ==> |m - {k}| == |m| - 1
    ensures k !in m ==> m - {k} == m
  {
    if k in m {
      assert (m - {k}).Keys + {k} == m.Keys;
    }
  }
}
