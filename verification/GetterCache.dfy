/** The memoised getters of CppGraph.h: results are reused until a blocking or
    next-state write changes something they read, directly or through producers. */
module GetterCache {

  /** A pure getter body over module fields and other getters. */
  datatype Expr = Field(f: nat) | Call(getter: nat) | Op(name: nat, args: seq<Expr>)

  /** The getters, each calling earlier ones only, and the primitives' meaning. */
  datatype Program = Program(bodies: seq<Expr>, fields: nat, operate: (nat, seq<int>) -> int)

  type Store = seq<int>

  predicate ExprOk(p: Program, e: Expr, g: nat) {
    match e
    case Field(f) => f < p.fields
    case Call(h) => h < g
    case Op(_, args) => forall i | 0 <= i < |args| :: ExprOk(p, args[i], g)
  }

  predicate ProgramOk(p: Program) { forall g | 0 <= g < |p.bodies| :: ExprOk(p, p.bodies[g], g) }

  // ----- Fresh evaluation ------------------------------------------------------------------

  function Fresh(p: Program, g: nat, e: Expr, store: Store): int
    requires ProgramOk(p) && g <= |p.bodies| && ExprOk(p, e, g) && |store| == p.fields
    decreases g, e, 0
  {
    match e
    case Field(f) => store[f]
    case Call(h) => Fresh(p, h, p.bodies[h], store)
    case Op(name, args) => p.operate(name, FreshAll(p, g, args, store))
  }

  function FreshAll(p: Program, g: nat, es: seq<Expr>, store: Store): (r: seq<int>)
    requires ProgramOk(p) && g <= |p.bodies| && (forall i | 0 <= i < |es| :: ExprOk(p, es[i], g)) && |store| == p.fields
    ensures |r| == |es|
    decreases g, es, 1
  {
    seq(|es|, i requires 0 <= i < |es| => Fresh(p, g, es[i], store))
  }

  /** The value of a getter computed anew. */
  function FreshGetter(p: Program, g: nat, store: Store): int
    requires ProgramOk(p) && g < |p.bodies| && |store| == p.fields
  {
    Fresh(p, g, p.bodies[g], store)
  }

  // ----- Read records ---------------------------------------------------------------------------

  /** GetterReads: direct reads with the versions seen, and producer snapshots. */
  datatype Record = Record(fields: map<nat, int>, producers: seq<Record>)

  /** Everything recorded still reads the same. */
  ghost predicate Matches(r: Record, store: Store) {
    && (forall f | f in r.fields :: f < |store| && store[f] == r.fields[f])
    && forall i | 0 <= i < |r.producers| :: Matches(r.producers[i], store)
  }

  /** Fields outside `written` still have the recorded versions. */
  ghost predicate Current(r: Record, store: Store, written: set<nat>) {
    && (forall f | f in r.fields :: f < |store| && (f !in written ==> store[f] == r.fields[f]))
    && forall i | 0 <= i < |r.producers| :: Current(r.producers[i], store, written)
  }

  /** In every store that matches the record, the getter has this value. */
  ghost predicate Describes(p: Program, r: Record, g: nat, value: int)
    requires ProgramOk(p) && g < |p.bodies|
  {
    forall store: Store | |store| == p.fields && Matches(r, store) :: FreshGetter(p, g, store) == value
  }

  ghost predicate DescribesExpr(p: Program, r: Record, g: nat, e: Expr, value: int)
    requires ProgramOk(p) && g <= |p.bodies| && ExprOk(p, e, g)
  {
    forall store: Store | |store| == p.fields && Matches(r, store) :: Fresh(p, g, e, store) == value
  }

  /** The longer record matches fewer stores. */
  ghost predicate Extends(r: Record, r': Record) { forall store: Store | Matches(r', store) :: Matches(r, store) }

  lemma {:induction false} MatchesIsCurrent(r: Record, store: Store, written: set<nat>)
    requires Matches(r, store)
    ensures Current(r, store, written)
  {
    forall i | 0 <= i < |r.producers| ensures Current(r.producers[i], store, written) {
      MatchesIsCurrent(r.producers[i], store, written);
    }
  }

  /** A write only disturbs the field it names. */
  lemma {:induction false} CurrentAfterWrite(r: Record, store: Store, written: set<nat>, f: nat, v: int)
    requires Current(r, store, written) && f < |store|
    ensures Current(r, store[f := v], written + {f})
  {
    forall i | 0 <= i < |r.producers| ensures Current(r.producers[i], store[f := v], written + {f}) {
      CurrentAfterWrite(r.producers[i], store, written, f, v);
    }
  }

  // ----- Staleness -----------------------------------------------------------------------------------

  predicate DirectlyStale(r: Record, store: Store, written: set<nat>) {
    exists f | f in r.fields :: f in written && f < |store| && store[f] != r.fields[f]
  }

  ghost predicate Stale(r: Record, store: Store, written: set<nat>) {
    DirectlyStale(r, store, written) || exists i | 0 <= i < |r.producers| :: Stale(r.producers[i], store, written)
  }

  /** Not stale means that everything recorded still reads the same. */
  lemma {:induction false} FreshRecordMatches(r: Record, store: Store, written: set<nat>)
    requires Current(r, store, written)
    ensures !Stale(r, store, written) <==> Matches(r, store)
  {
    forall i | 0 <= i < |r.producers|
      ensures !Stale(r.producers[i], store, written) <==> Matches(r.producers[i], store)
    {
      FreshRecordMatches(r.producers[i], store, written);
    }
  }

  ghost function Weight(r: Record): (n: nat)
    ensures n >= 1
  {
    1 + WeightAll(r.producers)
  }

  ghost function WeightAll(rs: seq<Record>): nat {
    if rs == [] then 0 else WeightAll(rs[..|rs| - 1]) + Weight(rs[|rs| - 1])
  }

  lemma {:induction false} WeightConcat(a: seq<Record>, b: seq<Record>)
    ensures WeightAll(a + b) == WeightAll(a) + WeightAll(b)
    decreases |b|
  {
    if b == [] {
      assert a + b == a;
    } else {
      assert (a + b)[..|a + b| - 1] == a + b[..|b| - 1];
      WeightConcat(a, b[..|b| - 1]);
    }
  }

  /** Visited records are not directly stale and their producers are visited or
      pending; a stale pending record makes the whole record stale. */
  ghost predicate Searching(record: Record, store: Store, written: set<nat>, pending: seq<Record>,
                            visited: set<Record>)
  {
    && (record in visited || record in pending)
    && (forall r | r in pending :: Stale(r, store, written) ==> Stale(record, store, written))
    && (forall r | r in visited ::
          !DirectlyStale(r, store, written) && (Stale(r, store, written) ==> Stale(record, store, written)))
    && forall r, i | r in visited && 0 <= i < |r.producers| :: r.producers[i] in visited || r.producers[i] in pending
  }

  lemma SearchSkip(record: Record, store: Store, written: set<nat>, rest: seq<Record>, current: Record,
                   visited: set<Record>)
    requires Searching(record, store, written, rest + [current], visited) && current in visited
    ensures Searching(record, store, written, rest, visited)
  {
    assert forall r :: r in rest + [current] <==> r in rest || r == current;
  }

  lemma SearchVisit(record: Record, store: Store, written: set<nat>, rest: seq<Record>, current: Record,
                    visited: set<Record>)
    requires Searching(record, store, written, rest + [current], visited) && !DirectlyStale(current, store, written)
    ensures Searching(record, store, written, rest + current.producers, visited + {current})
  {
    assert forall r :: r in rest + [current] <==> r in rest || r == current;
    assert forall r :: r in rest + current.producers <==> r in rest || r in current.producers;
    assert current in rest + [current];
    forall i | 0 <= i < |current.producers|
      ensures Stale(current.producers[i], store, written) ==> Stale(record, store, written) {}
  }

  lemma {:induction false} SearchedAll(record: Record, store: Store, written: set<nat>, visited: set<Record>, r: Record)
    requires Searching(record, store, written, [], visited) && r in visited
    ensures !Stale(r, store, written)
  {
    forall i | 0 <= i < |r.producers| ensures !Stale(r.producers[i], store, written) {
      SearchedAll(record, store, written, visited, r.producers[i]);
    }
  }

  /** staleGetter: the worklist over a record and its producers, each once. */
  method StaleGetter(record: Record, store: Store, written: set<nat>) returns (stale: bool)
    ensures stale <==> Stale(record, store, written)
  {
    var pending := [record];
    var visited: set<Record> := {};
    while pending != []
      invariant Searching(record, store, written, pending, visited)
      decreases WeightAll(pending)
    {
      var last := |pending| - 1;
      var current, rest := pending[last], pending[..last];
      assert pending == rest + [current] && current in pending;
      assert WeightAll(pending) == WeightAll(rest) + Weight(current);
      assert Weight(current) == 1 + WeightAll(current.producers);
      WeightConcat(rest, current.producers);
      if current in visited {
        SearchSkip(record, store, written, rest, current, visited);
        pending := rest;
      } else {
        if DirectlyStale(current, store, written) { return true; }
        SearchVisit(record, store, written, rest, current, visited);
        visited := visited + {current};
        pending := rest + current.producers;
      }
    }
    SearchedAll(record, store, written, visited, record);
    return false;
  }

  // ----- The cache ------------------------------------------------------------------------------------

  lemma MatchSnapshot(r: Record, producer: Record, store: Store)
    requires Matches(r, store) && Matches(producer, store)
    ensures Matches(r.(producers := r.producers + [producer]), store)
  {}

  lemma ExtendsSnapshot(r: Record, producer: Record)
    ensures var r' := r.(producers := r.producers + [producer]);
            Extends(r, r') && forall store: Store | Matches(r', store) :: Matches(producer, store)
  {
    var r' := r.(producers := r.producers + [producer]);
    forall store: Store | Matches(r', store) ensures Matches(r, store) && Matches(producer, store) {
      assert r'.producers[|r.producers|] == producer;
      forall i | 0 <= i < |r.producers| ensures Matches(r.producers[i], store) {
        assert r'.producers[i] == r.producers[i];
      }
    }
  }

  lemma ExtendsRead(r: Record, f: nat, store: Store)
    requires Matches(r, store) && f < |store|
    ensures var r' := r.(fields := r.fields[f := store[f]]);
            Matches(r', store) && Extends(r, r') && forall s: Store | Matches(r', s) :: f < |s| && s[f] == store[f]
  {
    var r' := r.(fields := r.fields[f := store[f]]);
    forall s: Store | Matches(r', s) ensures Matches(r, s) && f < |s| && s[f] == store[f] {
      forall x | x in r.fields ensures x < |s| && s[x] == r.fields[x] { assert x in r'.fields; }
    }
  }

  class Getters {
    const program: Program
    var store: Store
    var written: set<nat>
    var results: map<nat, int>
    var getterReads: map<nat, Record>

    /** Every cached result belongs to its record, and every record is current
        up to the fields that have been written. */
    ghost predicate Valid()
      reads this
    {
      && ProgramOk(program) && |store| == program.fields
      && (forall g | g in results ::
            g < |program.bodies| && g in getterReads && Describes(program, getterReads[g], g, results[g]))
      && forall g | g in getterReads :: Current(getterReads[g], store, written)
    }

    constructor (p: Program, initial: Store)
      requires ProgramOk(p) && |initial| == p.fields
      ensures Valid() && program == p && store == initial
    {
      program, store := p, initial;
      written, results, getterReads := {}, map[], map[];
    }

    /** A blocking or next-state write. */
    method Write(f: nat, v: int)
      requires Valid() && f < program.fields
      modifies this
      ensures Valid() && store == old(store)[f := v]
    {
      forall g | g in getterReads ensures Current(getterReads[g], store[f := v], written + {f}) {
        CurrentAfterWrite(getterReads[g], store, written, f, v);
      }
      store := store[f := v];
      written := written + {f};
    }

    /** invoke: a reused result is always the value a fresh evaluation would give
        in the current store, whatever was written and called before; and a getter
        is evaluated again only if something it read has changed. */
    method Invoke(g: nat) returns (value: int)
      requires Valid() && g < |program.bodies|
      modifies this`results, this`getterReads
      ensures Valid() && value == FreshGetter(program, g, store)
      ensures old(g in results && Matches(getterReads[g], store)) ==>
                value == old(results[g]) && results == old(results) && getterReads == old(getterReads)
      ensures g in getterReads && Matches(getterReads[g], store) && Describes(program, getterReads[g], g, value)
      decreases g, 4
    {
      if g in results {
        var stale := StaleGetter(getterReads[g], store, written);
        FreshRecordMatches(getterReads[g], store, written);
        if !stale { return results[g]; }
      }
      var record;
      value, record := Evaluate(g, program.bodies[g], Record(map[], []));
      Cache(g, value, record);
    }

    method Cache(g: nat, value: int, record: Record)
      requires Valid() && g < |program.bodies| && Matches(record, store) && Describes(program, record, g, value)
      modifies this`results, this`getterReads
      ensures Valid() && g in getterReads && getterReads[g] == record
    {
      MatchesIsCurrent(record, store, written);
      results := results[g := value];
      getterReads := getterReads[g := record];
    }

    /** Evaluates inside the active getter `g`, whose record collects the reads. */
    method Evaluate(g: nat, e: Expr, record: Record) returns (value: int, extended: Record)
      requires Valid() && g < |program.bodies| && ExprOk(program, e, g) && Matches(record, store)
      modifies this`results, this`getterReads
      ensures Valid() && Matches(extended, store) && Extends(record, extended)
      ensures DescribesExpr(program, extended, g, e, value)
      decreases g, 3, e, 0
    {
      match e
      case Field(f) =>
        ExtendsRead(record, f, store);
        return store[f], record.(fields := record.fields[f := store[f]]);
      case Call(h) =>
        value := Invoke(h);
        // inheritGetterReads
        MatchSnapshot(record, getterReads[h], store);
        ExtendsSnapshot(record, getterReads[h]);
        return value, record.(producers := record.producers + [getterReads[h]]);
      case Op(name, args) =>
        var values;
        values, extended := EvaluateAll(g, args, record);
        return program.operate(name, values), extended;
    }

    method EvaluateAll(g: nat, es: seq<Expr>, record: Record) returns (values: seq<int>, extended: Record)
      requires Valid() && g < |program.bodies| && (forall i | 0 <= i < |es| :: ExprOk(program, es[i], g))
               && Matches(record, store)
      modifies this`results, this`getterReads
      ensures Valid() && Matches(extended, store) && Extends(record, extended)
      ensures forall s: Store | |s| == program.fields && Matches(extended, s) :: FreshAll(program, g, es, s) == values
      decreases g, 3, es, 1
    {
      values, extended := [], record;
      for k := 0 to |es|
        invariant Valid() && Matches(extended, store) && Extends(record, extended) && |values| == k
        invariant forall s: Store, i | |s| == program.fields && Matches(extended, s) && 0 <= i < k ::
                    Fresh(program, g, es[i], s) == values[i]
      {
        var value, next := Evaluate(g, es[k], extended);
        values, extended := values + [value], next;
      }
    }
  }
}
