/** The least-recently-used cache behind the hot-spot counters. */
module Lru {
  import opened Options

  /** `order` is the eviction list from the most to the least recently used key; `items` the lookup table. */
  datatype Cache<!K(==), V> = Cache(size: nat, order: seq<K>, items: map<K, V>)

  /** `keys` without `k`. */
  function Without<K(==)>(keys: seq<K>, k: K): seq<K> {
    if |keys| == 0 then []
    else if keys[0] == k then Without(keys[1..], k)
    else [keys[0]] + Without(keys[1..], k)
  }

  function Take<K>(keys: seq<K>, n: nat): seq<K> {
    if |keys| <= n then keys else keys[..n]
  }

  predicate NoDuplicates<K(==)>(keys: seq<K>) {
    forall i, j :: 0 <= i < j < |keys| ==> keys[i] != keys[j]
  }

  /** List and table agree, and the capacity is respected. */
  ghost predicate Valid<K, V>(c: Cache<K, V>) {
    && 0 < c.size
    && |c.order| <= c.size
    && NoDuplicates(c.order)
    && (forall k :: k in c.order ==> k in c.items)
    && (forall k :: k in c.items ==> k in c.order)
  }

  function NewCache<K(==), V>(size: nat): Cache<K, V> {
    Cache(size, [], map[])
  }

  // ---------------------------------------------------------------- operations

  function MoveToFront<K(==), V>(c: Cache<K, V>, k: K): Cache<K, V> {
    c.(order := [k] + Without(c.order, k))
  }

  function RemoveOldest<K(==), V>(c: Cache<K, V>): Cache<K, V> {
    if |c.order| == 0 then c
    else
      var oldest := c.order[|c.order| - 1];
      c.(order := c.order[..|c.order| - 1], items := c.items - {oldest})
  }

  /** Puts a new key in front and evicts the oldest one when the capacity is exceeded. */
  function Insert<K(==), V>(c: Cache<K, V>, k: K, v: V): Cache<K, V> {
    var pushed := c.(order := [k] + c.order, items := c.items[k := v]);
    if |pushed.order| > c.size then RemoveOldest(pushed) else pushed
  }

  function Add<K(==), V>(c: Cache<K, V>, k: K, v: V): Cache<K, V> {
    if k in c.items then MoveToFront(c, k).(items := c.items[k := v]) else Insert(c, k, v)
  }

  /** Adds only when absent; returns the value already there. */
  function AddIfAbsent<K(==), V>(c: Cache<K, V>, k: K, v: V): (Cache<K, V>, Option<V>) {
    if k in c.items then (MoveToFront(c, k), Some(c.items[k])) else (Insert(c, k, v), None)
  }

  function Get<K(==), V>(c: Cache<K, V>, k: K): (Cache<K, V>, Option<V>) {
    if k in c.items then (MoveToFront(c, k), Some(c.items[k])) else (c, None)
  }

  /** A write through the pointer a lookup returned: the value changes, the recency does not. */
  function Store<K(==), V>(c: Cache<K, V>, k: K, v: V): Cache<K, V> {
    if k in c.items then c.(items := c.items[k := v]) else c
  }

  function Remove<K(==), V>(c: Cache<K, V>, k: K): Cache<K, V> {
    if k in c.items then c.(order := Without(c.order, k), items := c.items - {k}) else c
  }

  // ---------------------------------------------------------------- lists without one key

  lemma {:induction false} WithoutMembers<K>(keys: seq<K>, k: K)
    ensures forall x :: x in Without(keys, k) ==> x in keys && x != k
    ensures forall x :: x in keys && x != k ==> x in Without(keys, k)
    ensures |Without(keys, k)| <= |keys|
  {
    if |keys| > 0 {
      WithoutMembers(keys[1..], k);
      assert keys == [keys[0]] + keys[1..];
    }
  }

  lemma {:induction false} WithoutAbsent<K>(keys: seq<K>, k: K)
    requires k !in keys
    ensures Without(keys, k) == keys
  {
    if |keys| > 0 {
      assert keys == [keys[0]] + keys[1..];
      WithoutAbsent(keys[1..], k);
    }
  }

  lemma {:induction false} WithoutDistinct<K>(keys: seq<K>, k: K)
    requires NoDuplicates(keys)
    ensures NoDuplicates(Without(keys, k))
    ensures k in keys ==> |Without(keys, k)| == |keys| - 1
  {
    if |keys| > 0 {
      var rest := keys[1..];
      WithoutDistinct(rest, k);
      WithoutMembers(rest, k);
      if keys[0] == k {
        WithoutAbsent(rest, k);
      } else {
        assert keys == [keys[0]] + rest;
        assert keys[0] !in Without(rest, k);
      }
    }
  }

  lemma {:induction false} TakeCons<K>(keys: seq<K>, n: nat)
    requires |keys| > 0 && n > 0
    ensures Take(keys, n) == [keys[0]] + Take(keys[1..], n - 1)
  {
  }

  /** Removing a key from the cut shortens it by one and commutes with cutting. */
  lemma {:induction false} TakeWithoutIn<K>(keys: seq<K>, k: K, n: nat)
    requires NoDuplicates(keys) && k in Take(keys, n)
    ensures n > 0 && Without(Take(keys, n), k) == Take(Without(keys, k), n - 1)
  {
    var rest := keys[1..];
    TakeCons(keys, n);
    if keys[0] == k {
      assert k !in rest;
      WithoutAbsent(rest, k);
      WithoutAbsent(Take(rest, n - 1), k);
      assert Take(keys, n)[1..] == Take(rest, n - 1);
    } else {
      TakeWithoutIn(rest, k, n - 1);
      assert Take(keys, n)[1..] == Take(rest, n - 1);
      TakeCons(Without(keys, k), n - 1);
      assert Without(keys, k)[1..] == Without(rest, k);
    }
  }

  /** Removing a key beyond the cut leaves everything before it alone. */
  lemma {:induction false} TakeWithoutOut<K>(keys: seq<K>, k: K, n: nat)
    requires k !in Take(keys, n) && n > 0
    ensures Take(Without(keys, k), n - 1) == Take(keys, n - 1)
  {
    if |keys| > 0 && n > 1 {
      var rest := keys[1..];
      TakeCons(keys, n);
      TakeCons(keys, n - 1);
      assert keys[0] != k;
      TakeWithoutOut(rest, k, n - 1);
      TakeCons(Without(keys, k), n - 1);
      assert Without(keys, k)[1..] == Without(rest, k);
    }
  }

  // ---------------------------------------------------------------- every operation keeps the cache valid

  lemma {:induction false} MoveToFrontValid<K, V>(c: Cache<K, V>, k: K)
    requires Valid(c) && k in c.items
    ensures Valid(MoveToFront(c, k))
  {
    WithoutMembers(c.order, k);
    WithoutDistinct(c.order, k);
  }

  lemma {:induction false} RemoveOldestValid<K, V>(c: Cache<K, V>)
    requires 0 < c.size && |c.order| <= c.size + 1 && NoDuplicates(c.order)
    requires (forall k :: k in c.order ==> k in c.items) && (forall k :: k in c.items ==> k in c.order)
    requires |c.order| > 0
    ensures Valid(RemoveOldest(c))
  {
    var init, oldest := c.order[..|c.order| - 1], c.order[|c.order| - 1];
    assert c.order == init + [oldest];
  }

  lemma {:induction false} InsertValid<K, V>(c: Cache<K, V>, k: K, v: V)
    requires Valid(c) && k !in c.items
    ensures Valid(Insert(c, k, v)) && Insert(c, k, v).order == Take([k] + c.order, c.size)
    ensures k in Insert(c, k, v).items && Insert(c, k, v).items[k] == v
  {
    var pushed := c.(order := [k] + c.order, items := c.items[k := v]);
    assert NoDuplicates(pushed.order);
    if |pushed.order| > c.size {
      RemoveOldestValid(pushed);
      assert pushed.order[|pushed.order| - 1] in c.order;
    }
  }

  lemma {:induction false} RemoveValid<K, V>(c: Cache<K, V>, k: K)
    requires Valid(c)
    ensures Valid(Remove(c, k)) && k !in Remove(c, k).items
    ensures forall x :: x in Remove(c, k).order <==> x in c.order && x != k
  {
    WithoutMembers(c.order, k);
    WithoutDistinct(c.order, k);
  }

  /** What the operations do to the values: an addition sets its own, everything else that stays is untouched. */
  lemma {:induction false} ValuesAfter<K, V>(c: Cache<K, V>, k: K, v: V, other: K)
    requires Valid(c)
    ensures k in Add(c, k, v).items && Add(c, k, v).items[k] == v
    ensures var (c', prior) := AddIfAbsent(c, k, v);
            && prior == Get(c, k).1
            && k in c'.items && c'.items[k] == if prior.Some? then prior.value else v
    ensures other != k && other in Add(c, k, v).items ==>
              other in c.items && Add(c, k, v).items[other] == c.items[other]
    ensures other != k && other in AddIfAbsent(c, k, v).0.items ==>
              other in c.items && AddIfAbsent(c, k, v).0.items[other] == c.items[other]
    ensures Get(c, k).0.items == c.items
  {
    if k !in c.items {
      InsertValid(c, k, v);
    }
  }

  // ---------------------------------------------------------------- the stack property

  datatype Op<K, V> = AddOp(key: K, value: V) | AddIfAbsentOp(key: K, value: V) | GetOp(key: K) | RemoveOp(key: K)

  function Apply<K, V>(c: Cache<K, V>, op: Op<K, V>): Cache<K, V> {
    match op
    case AddOp(k, v) => Add(c, k, v)
    case AddIfAbsentOp(k, v) => AddIfAbsent(c, k, v).0
    case GetOp(k) => Get(c, k).0
    case RemoveOp(k) => Remove(c, k)
  }

  /** Everything touches its key except a removal and a lookup that misses. */
  predicate Touches<K, V>(c: Cache<K, V>, op: Op<K, V>) {
    !op.RemoveOp? && (!op.GetOp? || op.key in c.items)
  }

  predicate NoRemovals<K, V>(ops: seq<Op<K, V>>) {
    forall i :: 0 <= i < |ops| ==> !ops[i].RemoveOp?
  }

  function Run<K, V>(c: Cache<K, V>, ops: seq<Op<K, V>>): Cache<K, V> {
    if |ops| == 0 then c else Apply(Run(c, ops[..|ops| - 1]), ops[|ops| - 1])
  }

  /** The touched keys, the latest first. */
  function Touched<K, V>(c: Cache<K, V>, ops: seq<Op<K, V>>): seq<K> {
    if |ops| == 0 then []
    else
      var init, op := ops[..|ops| - 1], ops[|ops| - 1];
      (if Touches(Run(c, init), op) then [op.key] else []) + Touched(c, init)
  }

  /** Each key at its latest touch. */
  function Distinct<K(==)>(keys: seq<K>): seq<K> {
    if |keys| == 0 then [] else [keys[0]] + Without(Distinct(keys[1..]), keys[0])
  }

  lemma {:induction false} DistinctFacts<K>(keys: seq<K>)
    ensures NoDuplicates(Distinct(keys))
    ensures forall x :: x in Distinct(keys) ==> x in keys
    ensures forall x :: x in keys ==> x in Distinct(keys)
  {
    if |keys| > 0 {
      DistinctFacts(keys[1..]);
      WithoutDistinct(Distinct(keys[1..]), keys[0]);
      WithoutMembers(Distinct(keys[1..]), keys[0]);
      assert keys == [keys[0]] + keys[1..];
    }
  }

  lemma {:induction false} MoveOrder<K, V>(c: Cache<K, V>, k: K, recent: seq<K>)
    requires Valid(c) && k in c.items && NoDuplicates(recent) && c.order == Take(recent, c.size)
    ensures MoveToFront(c, k).order == Take([k] + Without(recent, k), c.size)
  {
    var front := [k] + Without(recent, k);
    TakeCons(front, c.size);
    assert front[1..] == Without(recent, k);
    TakeWithoutIn(recent, k, c.size);
  }

  lemma {:induction false} InsertOrder<K, V>(c: Cache<K, V>, k: K, v: V, recent: seq<K>)
    requires Valid(c) && k !in c.items && c.order == Take(recent, c.size)
    ensures Insert(c, k, v).order == Take([k] + Without(recent, k), c.size)
  {
    var front := [k] + Without(recent, k);
    TakeCons(front, c.size);
    assert front[1..] == Without(recent, k);
    InsertValid(c, k, v);
    TakeWithoutOut(recent, k, c.size);
    TakeCons([k] + c.order, c.size);
    assert ([k] + c.order)[1..] == c.order;
  }

  /** One operation moves its key to the front of the recency order and cuts the order at the capacity. */
  lemma {:induction false} ApplyOrder<K, V>(c: Cache<K, V>, op: Op<K, V>, recent: seq<K>)
    requires !op.RemoveOp?
    requires Valid(c) && NoDuplicates(recent) && c.order == Take(recent, c.size)
    ensures Valid(Apply(c, op)) && Apply(c, op).size == c.size
    ensures Apply(c, op).order == if Touches(c, op) then Take([op.key] + Without(recent, op.key), c.size) else c.order
  {
    if op.key in c.items {
      MoveToFrontValid(c, op.key);
      MoveOrder(c, op.key, recent);
    } else if !op.GetOp? {
      InsertValid(c, op.key, op.value);
      InsertOrder(c, op.key, op.value, recent);
    }
  }

  /** After any run without removals the cache holds exactly the most recently touched distinct keys, in order, up to
      its capacity, and list and table agree. */
  lemma {:induction false} StackProperty<K, V>(size: nat, ops: seq<Op<K, V>>)
    requires size > 0 && NoRemovals(ops)
    ensures Valid(Run(NewCache<K, V>(size), ops)) && Run(NewCache<K, V>(size), ops).size == size
    ensures Run(NewCache<K, V>(size), ops).order == Take(Distinct(Touched(NewCache<K, V>(size), ops)), size)
  {
    var c0 := NewCache<K, V>(size);
    if |ops| > 0 {
      var init, op := ops[..|ops| - 1], ops[|ops| - 1];
      assert forall i :: 0 <= i < |init| ==> init[i] == ops[i];
      StackProperty(size, init);
      var touched := Touched(c0, init);
      DistinctFacts(touched);
      ApplyOrder(Run(c0, init), op, Distinct(touched));
      if Touches(Run(c0, init), op) {
        assert Touched(c0, ops)[1..] == touched;
      } else {
        assert Touched(c0, ops) == touched;
      }
    }
  }

  // ---------------------------------------------------------------- inclusion

  lemma {:induction false} ApplyValid<K, V>(c: Cache<K, V>, op: Op<K, V>)
    requires Valid(c)
    ensures Valid(Apply(c, op)) && Apply(c, op).size == c.size
  {
    if op.RemoveOp? {
      RemoveValid(c, op.key);
    } else if op.key in c.items {
      MoveToFrontValid(c, op.key);
    } else if !op.GetOp? {
      InsertValid(c, op.key, op.value);
    }
  }

  /** Every run, removals included, keeps list and table in agreement. */
  lemma {:induction false} RunValid<K, V>(size: nat, ops: seq<Op<K, V>>)
    requires size > 0
    ensures Valid(Run(NewCache<K, V>(size), ops)) && Run(NewCache<K, V>(size), ops).size == size
  {
    if |ops| > 0 {
      RunValid<K, V>(size, ops[..|ops| - 1]);
      ApplyValid(Run(NewCache<K, V>(size), ops[..|ops| - 1]), ops[|ops| - 1]);
    }
  }

  lemma {:induction false} WithoutPrefix<K>(few: seq<K>, many: seq<K>, k: K)
    requires few <= many
    ensures Without(few, k) <= Without(many, k)
  {
    if |few| > 0 {
      WithoutPrefix(few[1..], many[1..], k);
    }
  }

  /** What an operation does to the order: takes its key out and, unless it is a removal, puts it in front and cuts. */
  lemma {:induction false} OrderAfter<K, V>(c: Cache<K, V>, op: Op<K, V>)
    requires Valid(c)
    ensures Apply(c, op).order ==
            if op.RemoveOp? then Without(c.order, op.key)
            else if op.GetOp? && op.key !in c.items then c.order
            else Take([op.key] + Without(c.order, op.key), c.size)
  {
    if op.key in c.items {
      WithoutDistinct(c.order, op.key);
    } else {
      WithoutAbsent(c.order, op.key);
      if !op.RemoveOp? && !op.GetOp? {
        InsertValid(c, op.key, op.value);
      }
    }
  }

  lemma {:induction false} TakePrefix<K>(few: seq<K>, many: seq<K>, small: nat, large: nat)
    requires few <= many && small <= large
    ensures Take(few, small) <= Take(many, large)
  {
  }

  /** The lookup hits the larger cache and misses the smaller one, which is not empty. */
  predicate Splits<K, V>(few: Cache<K, V>, many: Cache<K, V>, op: Op<K, V>) {
    op.GetOp? && op.key in many.items && op.key !in few.items && |few.order| > 0
  }

  /** One operation keeps inclusion if and only if it does not split the caches. */
  lemma {:induction false} StepIncludes<K, V>(few: Cache<K, V>, many: Cache<K, V>, op: Op<K, V>)
    requires Valid(few) && Valid(many) && few.size <= many.size && few.order <= many.order
    ensures Apply(few, op).order <= Apply(many, op).order <==> !Splits(few, many, op)
  {
    OrderAfter(few, op);
    OrderAfter(many, op);
    WithoutPrefix(few.order, many.order, op.key);
    var front, front' := [op.key] + Without(few.order, op.key), [op.key] + Without(many.order, op.key);
    assert front <= front';
    TakePrefix(front, front', few.size, many.size);
    if op.GetOp? && op.key !in few.items && op.key in many.items && |few.order| > 0 {
      assert few.order[0] in few.order;
      assert Take(front', many.size)[0] == op.key;
    }
  }

  /** Operation `i` of the run is such a lookup. */
  ghost predicate Diverges<K, V>(small: nat, large: nat, ops: seq<Op<K, V>>, i: nat)
    requires i < |ops|
  {
    Splits(Run(NewCache<K, V>(small), ops[..i]), Run(NewCache<K, V>(large), ops[..i]), ops[i])
  }

  /** The keys of the smaller cache are a prefix of those of the larger one after the first `m` operations. */
  ghost predicate Included<K, V>(small: nat, large: nat, ops: seq<Op<K, V>>, m: nat)
    requires m <= |ops|
  {
    Run(NewCache<K, V>(small), ops[..m]).order <= Run(NewCache<K, V>(large), ops[..m]).order
  }

  lemma {:induction false} IncludedNext<K, V>(small: nat, large: nat, ops: seq<Op<K, V>>, i: nat)
    requires 0 < small <= large && i < |ops| && Included(small, large, ops, i)
    ensures Included(small, large, ops, i + 1) <==> !Diverges(small, large, ops, i)
  {
    RunValid<K, V>(small, ops[..i]);
    RunValid<K, V>(large, ops[..i]);
    StepIncludes(Run(NewCache<K, V>(small), ops[..i]), Run(NewCache<K, V>(large), ops[..i]), ops[i]);
    assert ops[..i + 1][..i] == ops[..i];
  }

  lemma {:induction false} IncludedUpTo<K, V>(small: nat, large: nat, ops: seq<Op<K, V>>, m: nat)
    requires 0 < small <= large && m <= |ops| && forall i :: 0 <= i < m ==> !Diverges(small, large, ops, i)
    ensures Included(small, large, ops, m)
  {
    if m > 0 {
      IncludedUpTo(small, large, ops, m - 1);
      assert !Diverges(small, large, ops, m - 1);
      IncludedNext(small, large, ops, m - 1);
    }
  }

  /** Exactly when: inclusion holds after every prefix of a run if and only if no lookup hits the larger cache and
      misses the smaller one while that holds anything. Additions and removals never break it. */
  lemma {:induction false} InclusionIff<K, V>(small: nat, large: nat, ops: seq<Op<K, V>>)
    requires 0 < small <= large
    ensures (forall m :: 0 <= m <= |ops| ==> Included(small, large, ops, m)) <==>
            (forall i :: 0 <= i < |ops| ==> !Diverges(small, large, ops, i))
  {
    if i :| 0 <= i < |ops| && Diverges(small, large, ops, i) {
      if Included(small, large, ops, i) {
        IncludedNext(small, large, ops, i);
      }
    } else {
      forall m | 0 <= m <= |ops|
        ensures Included(small, large, ops, m)
      {
        IncludedUpTo(small, large, ops, m);
      }
    }
  }

  /** In particular, without lookups the keys of a smaller cache are always a prefix of those of a larger one. */
  lemma {:induction false} InclusionProperty<K, V>(small: nat, large: nat, ops: seq<Op<K, V>>)
    requires 0 < small <= large && forall i :: 0 <= i < |ops| ==> !ops[i].GetOp?
    ensures Run(NewCache<K, V>(small), ops).order <= Run(NewCache<K, V>(large), ops).order
  {
    IncludedUpTo(small, large, ops, |ops|);
    assert ops[..|ops|] == ops;
  }

  /** Such a run exists. */
  lemma {:induction false} InclusionFailsWithGets()
    ensures var ops: seq<Op<int, int>> := [AddOp(1, 0), AddOp(2, 0), GetOp(1)];
            !(Run(NewCache<int, int>(1), ops).order <= Run(NewCache<int, int>(2), ops).order)
  {
    var ops: seq<Op<int, int>> := [AddOp(1, 0), AddOp(2, 0), GetOp(1)];
    var one, two := NewCache<int, int>(1), NewCache<int, int>(2);
    assert ops[..2][..1] == [AddOp(1, 0)] && ops[..2][..1][..0] == [];
    assert Run(one, ops[..2][..1]).order == [1] && Run(two, ops[..2][..1]).order == [1];
    assert Run(one, ops[..2]).order == [2] && Run(two, ops[..2]).order == [2, 1];
    assert Without([2, 1], 1) == [2] by {
      assert [2, 1][1..] == [1] && [1][1..] == [];
    }
  }
}
