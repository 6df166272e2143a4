// What the comparisons of a WHERE clause mean (src/query/operators/filter_operator.cpp).
module Comparisons {
  import opened Common
  import opened ByteFormat
  import opened RecordFormat
  import opened RecordCodecs
  import opened Catalogs
  import opened Queries

  // ---- The order of texts ----

  /** The texts agree on their first `k` bytes; then `s` is over and `u` is not, or the next
      byte of `s` is the smaller one. */
  predicate SmallerAt(s: Bytes, u: Bytes, k: nat) {
    && k <= |s| && k < |u| && s[..k] == u[..k]
    && (k < |s| ==> s[k] < u[k])
  }

  /** The first difference decides, and a proper prefix comes first. */
  ghost predicate ComesBefore(s: Bytes, u: Bytes) {
    exists k: nat :: SmallerAt(s, u, k)
  }

  lemma AgreeAtStart(s: Bytes, u: Bytes, k: nat)
    requires SmallerAt(s, u, k) && k > 0
    ensures s[0] == u[0]
  {
    assert s[..k][0] == u[..k][0];
  }

  lemma {:induction false} LexLessIs(s: Bytes, u: Bytes)
    ensures LexLess(s, u) <==> ComesBefore(s, u)
    decreases |s|
  {
    if u == [] || s == [] || s[0] != u[0] {
      if u != [] && (s == [] || s[0] < u[0]) {
        assert SmallerAt(s, u, 0);
      }
      if k: nat :| SmallerAt(s, u, k) {
        if k > 0 {
          AgreeAtStart(s, u, k);
        }
      }
    } else {
      LexLessIs(s[1..], u[1..]);
      if k: nat :| SmallerAt(s[1..], u[1..], k) {
        assert s[..k + 1] == [s[0]] + s[1..][..k] && u[..k + 1] == [u[0]] + u[1..][..k];
        assert SmallerAt(s, u, k + 1);
      }
      if k: nat :| SmallerAt(s, u, k) {
        assert s[1..][..k - 1] == s[..k][1..] && u[1..][..k - 1] == u[..k][1..];
        assert SmallerAt(s[1..], u[1..], k - 1);
      }
    }
  }

  lemma {:induction false} LexOrder(s: Bytes, u: Bytes)
    ensures LexLess(s, u) || s == u || LexLess(u, s)
    ensures !(LexLess(s, u) && LexLess(u, s)) && (s == u ==> !LexLess(s, u))
    decreases |s|
  {
    if s != [] && u != [] && s[0] == u[0] {
      LexOrder(s[1..], u[1..]);
      assert s == [s[0]] + s[1..] && u == [u[0]] + u[1..];
    }
  }

  // ---- Laws of the comparisons ----

  /** Of two integers, and of two texts, exactly one is the smaller, or they are equal; and
      `>=` and `<=` hold where `>` or `=`, and `<` or `=` do. */
  lemma ExactlyOneHolds(value: Value, column: Bytes, target: Value)
    requires (value.Integer? && target.Integer?) || (value.Text? && target.Text?)
    ensures var less, equal, greater := Satisfies(value, Condition(column, LT, target)), Satisfies(value, Condition(column, EQ, target)),
                                        Satisfies(value, Condition(column, GT, target));
            && (less || equal || greater) && !(less && equal) && !(less && greater) && !(equal && greater)
            && (Satisfies(value, Condition(column, GE, target)) <==> greater || equal)
            && (Satisfies(value, Condition(column, LE, target)) <==> less || equal)
            && (equal <==> value == target)
  {
    if value.Text? {
      LexOrder(value.s, target.s);
    }
    hide LexLess;
  }

  /** The integers above a number are its successor and whatever is larger than an integer
      above it. */
  lemma IntegersAscend(column: Bytes, i: Int32, j: Int32, target: Int32)
    ensures i as int == target as int + 1 ==> Satisfies(Integer(i), Condition(column, GT, Integer(target)))
    ensures Satisfies(Integer(i), Condition(column, GT, Integer(target))) && i <= j ==> Satisfies(Integer(j), Condition(column, GT, Integer(target)))
    ensures Satisfies(Integer(i), Condition(column, GT, Integer(target))) <==> Satisfies(Integer(target), Condition(column, LT, Integer(i)))
  {
  }

  lemma TextsByFirstDifference(column: Bytes, s: Bytes, u: Bytes)
    ensures Satisfies(Text(s), Condition(column, LT, Text(u))) <==> ComesBefore(s, u)
    ensures Satisfies(Text(s), Condition(column, GT, Text(u))) <==> ComesBefore(u, s)
    ensures s < u ==> Satisfies(Text(s), Condition(column, LT, Text(u)))
  {
    LexLessIs(s, u);
    LexLessIs(u, s);
    if s < u {
      assert SmallerAt(s, u, |s|);
    }
    hide LexLess;
  }

  /** Booleans can only be equal; and NULL, or a value of another type, satisfies nothing. */
  lemma OtherwiseOnlyEqual(value: Value, condition: Condition)
    requires !(value.Integer? && condition.target.Integer?) && !(value.Text? && condition.target.Text?)
    ensures Satisfies(value, condition) <==> value.Boolean? && condition.op == EQ && value == condition.target
  {
  }

  // ---- The meaning of WHERE ----

  ghost predicate Less(value: Value, target: Value) {
    || (value.Integer? && target.Integer? && value.i < target.i)
    || (value.Text? && target.Text? && ComesBefore(value.s, target.s))
  }

  /** What `value op target` means: equality for all types, an order for integers and texts. */
  ghost predicate Holds(value: Value, op: CompareOp, target: Value) {
    var ordered := value.Integer? || value.Text?;
    match op
    case EQ => !value.Null? && value == target
    case LT => Less(value, target)
    case GT => Less(target, value)
    case LE => Less(value, target) || (ordered && value == target)
    case GE => Less(target, value) || (ordered && value == target)
  }

  lemma SatisfiesIs(value: Value, condition: Condition)
    ensures Satisfies(value, condition) <==> Holds(value, condition.op, condition.target)
  {
    if value.Text? && condition.target.Text? {
      LexLessIs(value.s, condition.target.s);
      LexLessIs(condition.target.s, value.s);
      LexOrder(value.s, condition.target.s);
    }
    hide LexLess, ComesBefore;
  }

  /** In the first column of that name the record has a value for which the condition holds. */
  ghost predicate HoldsIn(schema: Schema, record: Bytes, condition: Condition) {
    exists p: nat :: p < |schema| && FirstNamed(schema, condition.column, p)
                     && ValueOf(schema, record, p).Some? && Holds(ValueOf(schema, record, p).value, condition.op, condition.target)
  }

  /** Position `p` is the first with that name. */
  predicate FirstNamed(schema: Schema, name: Bytes, p: nat) {
    p < |schema| && schema[p].name == name && forall k: nat :: k < p ==> schema[k].name != name
  }

  lemma FirstNamedIs(schema: Schema, name: Bytes)
    ensures forall p: nat :: FirstNamed(schema, name, p) <==> p < |schema| && p == PositionOf(schema, name)
  {
    PositionFound(schema, name);
    hide PositionOf, HasColumn;
  }

  lemma MeetsIs(schema: Schema, record: Bytes, condition: Condition)
    ensures Meets(schema, record, condition) <==> HoldsIn(schema, record, condition)
  {
    FirstNamedIs(schema, condition.column);
    var p := PositionOf(schema, condition.column);
    ValueNeedsColumn(schema, record, p);
    hide PositionOf, FirstNamed, Satisfies, Holds, ValueOf;
    if ValueOf(schema, record, p).Some? {
      SatisfiesIs(ValueOf(schema, record, p).value, condition);
    }
  }

  lemma ValueNeedsColumn(schema: Schema, record: Bytes, p: nat)
    ensures ValueOf(schema, record, p).Some? ==> p < |schema|
  {
    ValueParts(schema, record, p);
    hide Decode;
  }

  /** All conditions hold. */
  ghost predicate AllHold(schema: Schema, record: Bytes, conditions: seq<Condition>) {
    forall condition :: condition in conditions ==> HoldsIn(schema, record, condition)
  }

  lemma AllHoldIs(schema: Schema, record: Bytes, conditions: seq<Condition>)
    ensures MeetsAll(schema, record, conditions) <==> AllHold(schema, record, conditions)
  {
    hide Meets, HoldsIn;
    forall condition | condition in conditions ensures Meets(schema, record, condition) <==> HoldsIn(schema, record, condition) {
      MeetsIs(schema, record, condition);
    }
    if AllHold(schema, record, conditions) {
      forall k: nat | k < |conditions| ensures Meets(schema, record, conditions[k]) {
        assert conditions[k] in conditions;
      }
    }
  }

  /** WHERE is a conjunction, in any order. */
  lemma ConditionsAreJoined(schema: Schema, record: Bytes, first: seq<Condition>, second: seq<Condition>)
    ensures MeetsAll(schema, record, first + second) <==> MeetsAll(schema, record, first) && MeetsAll(schema, record, second)
    ensures MeetsAll(schema, record, [])
  {
    hide *;
    AllHoldIs(schema, record, first + second);
    AllHoldIs(schema, record, first);
    AllHoldIs(schema, record, second);
    AllHoldIs(schema, record, []);
    AllHoldJoined(schema, record, first, second);
  }

  lemma AllHoldJoined(schema: Schema, record: Bytes, first: seq<Condition>, second: seq<Condition>)
    ensures AllHold(schema, record, first + second) <==> AllHold(schema, record, first) && AllHold(schema, record, second)
    ensures AllHold(schema, record, [])
  {
    hide HoldsIn;
  }
}
