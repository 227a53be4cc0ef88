/** The most-recently-used list: insertions move to the front, a limit evicts from the back. */
module SimpleMru {
  import opened Sequences

  /** std::find. */
  function Find<T(==)>(s: seq<T>, value: T): (i: nat)
    ensures i <= |s| && (i < |s| ==> s[i] == value) && (value in s ==> i < |s|)
  {
    if s == [] || s[0] == value then 0 else 1 + Find(s[1..], value)
  }

  function Without<T(==)>(s: seq<T>, value: T): seq<T> {
    var i := Find(s, value);
    if i == |s| then s else s[..i] + s[i + 1..]
  }

  /** The list with no limit: the value moves, or is added, to the front. */
  function Touched<T(==)>(s: seq<T>, value: T): seq<T> {
    [value] + Without(s, value)
  }

  datatype Op<T> = Insert(value: T) | Erase(value: T) | SetLimit(limit: nat)

  function Applied<T(==)>(s: seq<T>, op: Op<T>): seq<T> {
    match op
    case Insert(v) => Touched(s, v)
    case Erase(v) => Without(s, v)
    case SetLimit(_) => s
  }

  /** The unlimited list after a run of operations. */
  function Unlimited<T(==)>(ops: seq<Op<T>>): seq<T> {
    if ops == [] then []
    else
      Applied(Unlimited(ops[..|ops| - 1]), ops[|ops| - 1])
  }

  lemma WithoutIs<T>(s: seq<T>, value: T)
    requires Distinct(s)
    ensures Distinct(Without(s, value)) && value !in Without(s, value)
    ensures forall x :: x in Without(s, value) <==> x in s && x != value
  {
    var i, w := Find(s, value), Without(s, value);
    if i < |s| {
      forall j, k | 0 <= j < k < |w|
        ensures w[j] != w[k]
      {
        assert w[j] == s[if j < i then j else j + 1] && w[k] == s[if k < i then k else k + 1];
      }
      forall x | x in s && x != value
        ensures x in Without(s, value)
      {
        var k :| 0 <= k < |s| && s[k] == x;
        assert w[if k < i then k else k - 1] == x;
      }
    }
  }

  lemma {:induction false} UnlimitedDistinct<T>(ops: seq<Op<T>>)
    ensures Distinct(Unlimited(ops))
  {
    if ops != [] {
      UnlimitedDistinct(ops[..|ops| - 1]);
      if !ops[|ops| - 1].SetLimit? {
        WithoutIs(Unlimited(ops[..|ops| - 1]), ops[|ops| - 1].value);
      }
    }
  }

  lemma {:induction false} FindConcat<T>(s: seq<T>, t: seq<T>, value: T)
    ensures Find(s + t, value) == if value in s then Find(s, value) else |s| + Find(t, value)
    ensures Find(s, value) < |s| <==> value in s
  {
    if s == [] {
      assert s + t == t;
    } else {
      assert (s + t)[1..] == s[1..] + t;
      FindConcat(s[1..], t, value);
    }
  }

  lemma FindInPrefix<T>(s: seq<T>, u: seq<T>, value: T)
    requires s <= u
    ensures value in s ==> Find(s, value) == Find(u, value) < |s|
    ensures value !in s ==> Find(s, value) == |s| <= Find(u, value)
  {
    assert u == s + u[|s|..];
    FindConcat(s, u[|s|..], value);
  }

  /** Removing a value from a list and from a longer one it is a prefix of keeps it a prefix. */
  lemma WithoutKeepsPrefix<T>(s: seq<T>, u: seq<T>, value: T)
    requires s <= u
    ensures Without(s, value) <= Without(u, value)
  {
    FindInPrefix(s, u, value);
    var i, j := Find(s, value), Find(u, value);
    if value in s {
      assert u[..j] == s[..i] && s[i + 1..] <= u[i + 1..];
    } else {
      assert Without(u, value)[..|s|] == s;
    }
  }

  function First<T>(s: seq<T>, k: nat): seq<T> {
    if k != 0 && |s| > k then s[..k] else s
  }

  lemma UnlimitedStep<T>(ops: seq<Op<T>>, op: Op<T>)
    ensures Unlimited(ops + [op]) == Applied(Unlimited(ops), op)
  {
    assert (ops + [op])[..|ops|] == ops;
  }

  /** Rotating one element to the front is a touch. */
  lemma RotatedIsTouched<T>(s: seq<T>, value: T, i: nat)
    requires i == Find(s, value)
    ensures i < |s| ==> Touched(s, value) == s[i..i + 1] + s[..i] + s[i + 1..]
    ensures i == |s| ==> Touched(s, value) == [value] + s
  {
    hide Find;
    if i < |s| {
      ToFront(s, i);
    }
  }

  lemma ToFront<T>(s: seq<T>, i: nat)
    requires i < |s|
    ensures s[i..i + 1] + s[..i] + s[i + 1..] == [s[i]] + (s[..i] + s[i + 1..])
  {
  }

  lemma WithoutLength<T>(s: seq<T>, value: T)
    ensures |Without(s, value)| == if Find(s, value) == |s| then |s| else |s| - 1
  {
  }

  class SimpleMru<T(==)> {
    var items: seq<T>
    var limit: nat
    /** Every operation so far. */
    ghost var ops: seq<Op<T>>

    /** The stack inclusion property: the list is a prefix of the unlimited one, within the limit. */
    ghost predicate Valid()
      reads this
    {
      items <= Unlimited(ops) && (limit != 0 ==> |items| <= limit)
    }

    constructor (limit: nat)
      ensures Valid() && items == [] && this.limit == limit && ops == []
    {
      items, this.limit, ops := [], limit, [];
    }

    method SetLimit(limit: nat)
      requires Valid()
      modifies this
      ensures Valid() && this.limit == limit && ops == old(ops) + [Op.SetLimit(limit)]
      ensures items == First(old(items), limit)
      ensures items <= old(items)
      ensures |items| == if limit == 0 || |old(items)| < limit then |old(items)| else limit
    {
      hide Unlimited;
      this.limit := limit;
      if limit != 0 && |items| > limit {
        items := items[..limit];
      }
      UnlimitedStep(ops, Op.SetLimit(limit));
      ops := ops + [Op.SetLimit(limit)];
    }

    /** A value in the list is rotated to the front; a new one is put there, and the last one evicted if need be. */
    method Insert(value: T)
      requires Valid()
      modifies this
      ensures Valid() && limit == old(limit) && ops == old(ops) + [Op.Insert(value)]
      ensures items == First(Touched(old(items), value), old(limit))
      ensures value in old(items) ==>
        exists i ::
          0 <= i < |old(items)| && old(items)[i] == value && items == [value] + old(items)[..i] + old(items)[i + 1..]
      ensures value !in old(items) ==>
        |items| > 0 && items[0] == value && items[1..] <= old(items) &&
        |items| == if limit == 0 || |old(items)| < limit then |old(items)| + 1 else limit
    {
      hide Unlimited, Without;
      ghost var was := items;
      WithoutKeepsPrefix(items, Unlimited(ops), value);
      WithoutLength(items, value);
      RotatedIsTouched(items, value, Find(items, value));
      var it := Find(items, value);
      if it != |items| {
        items := items[it..it + 1] + items[..it] + items[it + 1..];
        assert was[it] == value && was[it..it + 1] == [was[it]];
      } else {
        items := [value] + items;
        if limit != 0 && |items| > limit {
          items := items[..|items| - 1];
        }
      }
      UnlimitedStep(ops, Op.Insert(value));
      ops := ops + [Op.Insert(value)];
    }

    method Erase(value: T) returns (erased: bool)
      requires Valid()
      modifies this
      ensures Valid() && limit == old(limit) && ops == old(ops) + [Op.Erase(value)]
      ensures items == Without(old(items), value) && (erased <==> value in old(items))
      ensures !erased ==> items == old(items)
      ensures erased ==>
        exists i ::
          0 <= i < |old(items)| && old(items)[i] == value && items == old(items)[..i] + old(items)[i + 1..]
    {
      hide Unlimited;
      WithoutKeepsPrefix(items, Unlimited(ops), value);
      var it := Find(items, value);
      erased := it != |items|;
      if erased {
        items := items[..it] + items[it + 1..];
      }
      UnlimitedStep(ops, Op.Erase(value));
      ops := ops + [Op.Erase(value)];
      assert old(items)[..it] + old(items)[it..] == old(items);
    }
  }

  function Inserts<T>(values: seq<T>): (ops: seq<Op<T>>)
    ensures |ops| == |values|
  {
    seq(|values|, i requires 0 <= i < |values| => Insert(values[i]))
  }

  lemma InsertsStep<T>(values: seq<T>, value: T)
    ensures Unlimited(Inserts(values + [value])) == Touched(Unlimited(Inserts(values)), value)
    ensures Inserts(values + [value]) == Inserts(values) + [Insert(value)]
  {
    assert Inserts(values + [value]) == Inserts(values) + [Insert(value)];
    UnlimitedStep(Inserts(values), Insert(value));
  }

  /** With a fixed limit and insertions only, the list is the first `limit` elements of the unlimited one. */
  method InsertAll<T(==)>(limit: nat, values: seq<T>) returns (items: seq<T>)
    ensures items == First(Unlimited(Inserts(values)), limit)
    ensures var all := Unlimited(Inserts(values));
            items <= all && |items| == if limit == 0 || |all| < limit then |all| else limit
    ensures Distinct(items)
  {
    hide Unlimited, Without, Touched;
    var mru := new SimpleMru<T>(limit);
    EmptyStart(mru.ops, limit);
    for n := 0 to |values|
      invariant mru.Valid() && mru.limit == limit && fresh(mru)
      invariant mru.ops == Inserts(values[..n]) && mru.items == First(Unlimited(mru.ops), limit)
    {
      FirstTouched(Unlimited(mru.ops), values[n], limit);
      InsertsStep(values[..n], values[n]);
      assert values[..n + 1] == values[..n] + [values[n]];
      mru.Insert(values[n]);
    }
    assert values[..|values|] == values;
    UnlimitedDistinct(Inserts(values));
    items := mru.items;
  }

  lemma EmptyStart<T>(ops: seq<Op<T>>, limit: nat)
    requires ops == []
    ensures First(Unlimited(ops), limit) == []
  {
  }

  /** Cutting off before or after a touch makes no difference to the first k elements. */
  lemma FirstTouched<T>(u: seq<T>, value: T, k: nat)
    ensures First(Touched(First(u, k), value), k) == First(Touched(u, value), k)
  {
    FindInPrefix(First(u, k), u, value);
    WithoutKeepsPrefix(First(u, k), u, value);
  }

  /** The last use of a value. */
  function LastUse<T(==)>(values: seq<T>, x: T): (i: int)
    ensures -1 <= i < |values|
  {
    if values == [] then -1
    else if values[|values| - 1] == x then |values| - 1
    else LastUse(values[..|values| - 1], x)
  }

  lemma {:induction false} LastUseIs<T>(values: seq<T>, x: T)
    ensures var i := LastUse(values, x);
            (i >= 0 ==> values[i] == x) && forall j :: i < j < |values| ==> values[j] != x
  {
    if values != [] && values[|values| - 1] != x {
      LastUseIs(values[..|values| - 1], x);
      assert forall j :: 0 <= j < |values| - 1 ==> values[..|values| - 1][j] == values[j];
    }
  }

  /** Uses come in the order of the list, latest first. */
  ghost predicate ByLastUse<T>(u: seq<T>, values: seq<T>) {
    (forall x :: x in u ==> x in values) && (forall x :: x in values ==> x in u) &&
    forall i, j :: 0 <= i < j < |u| ==> LastUse(values, u[i]) > LastUse(values, u[j])
  }

  /** Whether an operation is about x. */
  predicate Names<T(==)>(op: Op<T>, x: T) {
    !op.SetLimit? && op.value == x
  }

  /** The last operation about x. */
  function LastOp<T(==)>(ops: seq<Op<T>>, x: T): (i: int)
    ensures -1 <= i < |ops| && (i >= 0 ==> Names(ops[i], x))
  {
    if ops == [] then -1
    else if Names(ops[|ops| - 1], x) then |ops| - 1
    else LastOp(ops[..|ops| - 1], x)
  }

  lemma LastOpStep<T>(ops: seq<Op<T>>, op: Op<T>, x: T)
    ensures LastOp(ops + [op], x) == if Names(op, x) then |ops| else LastOp(ops, x)
  {
    assert (ops + [op])[..|ops|] == ops;
  }

  /** Whether operation i inserts a value that no later one is about. */
  predicate Inserted<T(==)>(ops: seq<Op<T>>, i: int) {
    0 <= i < |ops| && ops[i].Insert? && LastOp(ops, ops[i].value) == i
  }

  /** The list is the values whose last operation is an insertion, latest first. */
  ghost predicate ByLastOp<T>(u: seq<T>, ops: seq<Op<T>>) {
    (forall k :: 0 <= k < |u| ==> Inserted(ops, LastOp(ops, u[k]))) &&
    (forall i :: Inserted(ops, i) ==> ops[i].value in u) &&
    forall j, k :: 0 <= j < k < |u| ==> LastOp(ops, u[j]) > LastOp(ops, u[k])
  }

  /** Where an element of the shortened list stood before. */
  function Before<T(==)>(s: seq<T>, value: T, k: nat): (p: nat)
    requires k < |Without(s, value)|
    ensures p < |s| && (k < Find(s, value) ==> p == k) && (k >= Find(s, value) ==> p == k + 1)
  {
    WithoutLength(s, value);
    if k < Find(s, value) then k else k + 1
  }

  lemma WithoutAt<T>(s: seq<T>, value: T, k: nat)
    requires k < |Without(s, value)|
    ensures Without(s, value)[k] == s[Before(s, value, k)]
  {
    WithoutLength(s, value);
    hide Find;
  }

  /** An operation leaves the last operations on other values alone. */
  lemma InsertedBefore<T>(ops: seq<Op<T>>, op: Op<T>, i: int)
    requires 0 <= i < |ops| && ops[i].Insert? && !Names(op, ops[i].value)
    ensures Inserted(ops + [op], i) <==> Inserted(ops, i)
  {
    LastOpStep(ops, op, ops[i].value);
  }

  lemma InsertedIsOther<T>(ops: seq<Op<T>>, op: Op<T>, i: int)
    requires Inserted(ops + [op], i) && i < |ops|
    ensures !Names(op, ops[i].value) && Inserted(ops, i)
  {
    LastOpStep(ops, op, ops[i].value);
  }

  /** Taking a value out leaves the others where their last operations put them. */
  lemma OtherByLastOp<T>(u: seq<T>, ops: seq<Op<T>>, op: Op<T>, k: nat)
    requires Distinct(u) && ByLastOp(u, ops) && !op.SetLimit? && k < |Without(u, op.value)|
    ensures var x := Without(u, op.value)[k];
      x != op.value && LastOp(ops + [op], x) == LastOp(ops, u[Before(u, op.value, k)]) < |ops| &&
      Inserted(ops + [op], LastOp(ops + [op], x))
  {
    var w, p := Without(u, op.value), Before(u, op.value, k);
    WithoutIs(u, op.value);
    WithoutAt(u, op.value, k);
    assert w[k] in w && w[k] == u[p];
    assert Inserted(ops, LastOp(ops, u[p]));
    LastOpStep(ops, op, w[k]);
    InsertedBefore(ops, op, LastOp(ops, w[k]));
    hide Without, Find, LastOp, Before, Distinct, ByLastOp;
  }

  lemma OthersInOrder<T>(u: seq<T>, ops: seq<Op<T>>, op: Op<T>, j: nat, k: nat)
    requires Distinct(u) && ByLastOp(u, ops) && !op.SetLimit? && j < k < |Without(u, op.value)|
    ensures LastOp(ops + [op], Without(u, op.value)[j]) > LastOp(ops + [op], Without(u, op.value)[k])
  {
    OtherByLastOp(u, ops, op, j);
    OtherByLastOp(u, ops, op, k);
    assert Before(u, op.value, j) < Before(u, op.value, k);
    hide Without, Find, LastOp, Distinct, Inserted;
  }

  lemma OthersStay<T>(u: seq<T>, ops: seq<Op<T>>, op: Op<T>, i: int)
    requires Distinct(u) && ByLastOp(u, ops) && !op.SetLimit?
    requires Inserted(ops + [op], i) && i < |ops|
    ensures ops[i].value in Without(u, op.value)
  {
    InsertedIsOther(ops, op, i);
    WithoutIs(u, op.value);
    hide Without, Find, LastOp, Distinct;
  }

  lemma LimitByLastOp<T>(u: seq<T>, ops: seq<Op<T>>, op: Op<T>)
    requires ByLastOp(u, ops) && op.SetLimit?
    ensures ByLastOp(u, ops + [op])
  {
    hide LastOp;
    forall k | 0 <= k < |u|
      ensures LastOp(ops + [op], u[k]) == LastOp(ops, u[k])
      ensures Inserted(ops + [op], LastOp(ops + [op], u[k]))
    {
      assert Inserted(ops, LastOp(ops, u[k]));
      LastOpStep(ops, op, u[k]);
      InsertedBefore(ops, op, LastOp(ops, u[k]));
    }
    forall i | Inserted(ops + [op], i)
      ensures (ops + [op])[i].value in u
    {
      InsertedIsOther(ops, op, i);
    }
  }

  /** Position k of the list after an operation, in the list without the operation's value. */
  lemma AppliedAt<T>(u: seq<T>, op: Op<T>, k: nat)
    requires !op.SetLimit? && k < |Applied(u, op)|
    ensures op.Insert? && k == 0 ==> Applied(u, op)[k] == op.value
    ensures op.Insert? && k > 0 ==> k - 1 < |Without(u, op.value)| && Applied(u, op)[k] == Without(u, op.value)[k - 1]
    ensures op.Erase? ==> k < |Without(u, op.value)| && Applied(u, op)[k] == Without(u, op.value)[k]
  {
    hide Without, Find;
  }

  lemma AppliedKept<T>(u: seq<T>, ops: seq<Op<T>>, op: Op<T>, k: nat)
    requires Distinct(u) && ByLastOp(u, ops) && !op.SetLimit? && k < |Applied(u, op)|
    ensures Inserted(ops + [op], LastOp(ops + [op], Applied(u, op)[k]))
  {
    AppliedAt(u, op, k);
    LastOpStep(ops, op, op.value);
    hide Applied, Without, Find, LastOp, ByLastOp, Distinct;
    if op.Erase? {
      OtherByLastOp(u, ops, op, k);
    } else if k > 0 {
      OtherByLastOp(u, ops, op, k - 1);
    }
  }

  lemma AppliedInOrder<T>(u: seq<T>, ops: seq<Op<T>>, op: Op<T>, j: nat, k: nat)
    requires Distinct(u) && ByLastOp(u, ops) && !op.SetLimit? && j < k < |Applied(u, op)|
    ensures LastOp(ops + [op], Applied(u, op)[j]) > LastOp(ops + [op], Applied(u, op)[k])
  {
    hide Applied, Without, Find, LastOp, ByLastOp, Distinct, Inserted, Before;
    AppliedAt(u, op, j);
    AppliedAt(u, op, k);
    if op.Erase? {
      OthersInOrder(u, ops, op, j, k);
    } else if j > 0 {
      OthersInOrder(u, ops, op, j - 1, k - 1);
    } else {
      OtherByLastOp(u, ops, op, k - 1);
      LastOpStep(ops, op, op.value);
    }
  }

  lemma AppliedHas<T>(u: seq<T>, ops: seq<Op<T>>, op: Op<T>, i: int)
    requires Distinct(u) && ByLastOp(u, ops) && !op.SetLimit? && Inserted(ops + [op], i)
    ensures 0 <= i <= |ops| && (ops + [op])[i].Insert? && (ops + [op])[i].value in Applied(u, op)
  {
    if i < |ops| {
      OthersStay(u, ops, op, i);
    }
    hide Without, Find, LastOp, ByLastOp, Distinct;
  }

  lemma AppliedByLastOp<T>(u: seq<T>, ops: seq<Op<T>>, op: Op<T>)
    requires Distinct(u) && ByLastOp(u, ops)
    ensures ByLastOp(Applied(u, op), ops + [op])
  {
    if op.SetLimit? {
      LimitByLastOp(u, ops, op);
    } else {
      forall k: nat | k < |Applied(u, op)| {
        AppliedKept(u, ops, op, k);
      }
      forall j: nat, k: nat | j < k < |Applied(u, op)| {
        AppliedInOrder(u, ops, op, j, k);
      }
      forall i | Inserted(ops + [op], i) {
        AppliedHas(u, ops, op, i);
      }
      hide Applied, LastOp, Inserted, Distinct;
    }
  }

  /** After any operations the unlimited list is the values whose last operation is an insertion, latest first. */
  lemma {:induction false} UnlimitedIsByLastOp<T>(ops: seq<Op<T>>)
    ensures ByLastOp(Unlimited(ops), ops)
  {
    if ops != [] {
      var before, op := ops[..|ops| - 1], ops[|ops| - 1];
      assert ops == before + [op];
      UnlimitedIsByLastOp(before);
      UnlimitedDistinct(before);
      AppliedByLastOp(Unlimited(before), before, op);
      hide ByLastOp, Applied;
    }
  }

  lemma {:induction false} LastOpOfInserts<T>(values: seq<T>, x: T)
    ensures LastOp(Inserts(values), x) == LastUse(values, x)
  {
    if values != [] {
      var n := |values| - 1;
      assert Inserts(values)[..n] == Inserts(values[..n]);
      LastOpOfInserts(values[..n], x);
    }
  }

  /** With insertions only: the distinct inserted values, latest use first. */
  lemma UnlimitedIsByLastUse<T>(values: seq<T>)
    ensures ByLastUse(Unlimited(Inserts(values)), values)
  {
    var ops, u := Inserts(values), Unlimited(Inserts(values));
    UnlimitedIsByLastOp(ops);
    hide Unlimited, LastOp, LastUse;
    forall k | 0 <= k < |u|
      ensures u[k] in values && LastOp(ops, u[k]) == LastUse(values, u[k])
    {
      LastOpOfInserts(values, u[k]);
      assert ops[LastOp(ops, u[k])].value == u[k];
    }
    forall x | x in values
      ensures x in u
    {
      var i :| 0 <= i < |values| && values[i] == x;
      LastOpOfInserts(values, x);
      LastUseFinds(values, i);
      assert Inserted(ops, LastOp(ops, x));
    }
  }

  lemma LastUseFinds<T>(values: seq<T>, i: nat)
    requires i < |values|
    ensures LastUse(values, values[i]) >= i && values[LastUse(values, values[i])] == values[i]
  {
    LastUseIs(values, values[i]);
  }
}
