/**
  The process-wide table of custom renderers of valast's customtype package.

  A Go type T is registered together with a function that turns a value of T
  into an `ast.Expr`; the table is keyed by the `reflect.Type` of T and stores a
  type-erased wrapper `func(any) ast.Expr` that down-casts its argument to T
  before calling the user's function.  Entries are only ever added.

  The model is generic in three opaque types:
    K  the runtime type identity (`reflect.Type`),
    A  an erased Go value (`any`),
    E  a rendered expression (`ast.Expr`).
 */
module CustomType {

  datatype Option<+T> = None | Some(value: T)

  /** How a call to `Register` ends: it returns normally, or it panics with
      "<type> already registered". */
  datatype Outcome = Returned | Panicked

  /** The runtime view of one Go type T over erased values A: T's zero value
      (`var zero T`), boxing a T into an `any`, and the type assertion
      `value.(T)`, which yields None where Go would panic. */
  datatype GoType<!T, !A> = GoType(zero: T, box: T -> A, unbox: A -> Option<T>)

  /** Boxing a value of T and asserting it back to T gives the value back. */
  ghost predicate Embeds<T(!new), A>(t: GoType<T, A>)
  {
    forall x :: t.unbox(t.box(x)) == Some(x)
  }

  /** What the Go runtime guarantees of a non-interface type T, read through
      `typeOf` (the model of `reflect.TypeOf`): boxing round-trips, and the
      assertion `value.(T)` succeeds exactly on the values whose dynamic type
      is T's, the type of T's zero value. */
  ghost predicate Reflects<T(!new), A(!new), K>(typeOf: A -> K, t: GoType<T, A>)
  {
    && Embeds(t)
    && (forall v :: t.unbox(v).Some? <==> typeOf(v) == typeOf(t.box(t.zero)))
  }

  /** The table key of T: the `reflect.Type` of T's zero value.  Every value
      of T has that same dynamic type, so the key is a property of T alone;
      it involves neither the render function nor which value is inspected. */
  function KeyOf<T(!new), A(!new), K>(typeOf: A -> K, t: GoType<T, A>): (k: K)
    requires Reflects(typeOf, t)
    ensures forall x :: typeOf(t.box(x)) == k
  {
    typeOf(t.box(t.zero))
  }

  /** The type-erasing wrapper `func(value any) ast.Expr { return render(value.(T)) }`.
      Its precondition is the type assertion: applied to a value whose dynamic
      type is not T, the Go wrapper panics.  On a boxed value of T it renders
      exactly what `render` does. */
  function Wrap<T(!new), A, E>(t: GoType<T, A>, render: T -> E): (w: A --> E)
    requires Embeds(t)
    ensures forall x :: w.requires(t.box(x)) && w(t.box(x)) == render(x)
  {
    (v: A) requires t.unbox(v).Some? => render(t.unbox(v).value)
  }

  /** One registration on a table `m` as a transition: a key already present
      panics and leaves the table as it was; otherwise the key is bound to
      the wrapper. */
  function RegisterStep<K, W>(m: map<K, W>, k: K, w: W): (r: (Outcome, map<K, W>))
    ensures r.0 == Panicked <==> k in m
    ensures r.1.Keys == m.Keys + {k}
    ensures forall j :: j in m ==> r.1[j] == m[j]
    ensures r.0 == Returned ==> r.1[k] == w
  {
    if k in m then (Panicked, m) else (Returned, m[k := w])
  }

  /** The process-wide registry: the package-level map `customTypes`. */
  class Registry<K(==), A(!new), E> {
    /** `reflect.TypeOf` applied to an erased value. */
    const typeOf: A -> K
    var customTypes: map<K, A --> E>

    /** Every stored wrapper accepts every value whose dynamic type is the
        wrapper's key: a caller that looks a value up by its own type never
        reaches a failing type assertion. */
    ghost predicate Valid()
      reads this
    {
      forall v :: typeOf(v) in customTypes ==> customTypes[typeOf(v)].requires(v)
    }

    /** The table as created at process start: `make(map[...]...)`. */
    constructor (typeOf: A -> K)
      ensures this.typeOf == typeOf
      ensures customTypes == map[]
      ensures Valid()
    {
      this.typeOf := typeOf;
      customTypes := map[];
    }

    /** `Register[T](render)`.  The mutex around the body is not modelled;
        note that on the panic path the Go code never reaches its `Unlock`. */
    method Register<T(!new)>(t: GoType<T, A>, render: T -> E) returns (outcome: Outcome)
      requires Valid()
      requires Reflects(typeOf, t)
      modifies this
      ensures Valid()
      ensures (outcome, customTypes) == RegisterStep(old(customTypes), KeyOf(typeOf, t), Wrap(t, render))
      ensures outcome == Panicked <==> KeyOf(typeOf, t) in old(customTypes)
      ensures forall k :: k != KeyOf(typeOf, t) ==>
                (k in customTypes <==> k in old(customTypes)) &&
                (k in customTypes ==> customTypes[k] == old(customTypes)[k])
    {
      var zero := t.zero;
      var key := typeOf(t.box(zero));
      if key in customTypes {
        outcome := Panicked;
        return;
      }
      customTypes := customTypes[key := Wrap(t, render)];
      outcome := Returned;
    }

    /** `Is(rt)`: the stored wrapper for `rt` and whether there is one; on a
        miss the function is Go's nil.  It has no `modifies` clause, so the
        table is the same before and after. */
    method Is(rt: K) returns (f: Option<A --> E>, ok: bool)
      ensures ok <==> rt in customTypes
      ensures ok ==> f == Some(customTypes[rt])
      ensures !ok ==> f == None
      ensures Valid() && ok ==> forall v :: typeOf(v) == rt ==> f.value.requires(v)
    {
      if rt in customTypes {
        f, ok := Some(customTypes[rt]), true;
      } else {
        f, ok := None, false;
      }
    }
  }

  /** Registering T and then asking `Is` for T's key finds a wrapper that
      renders every value of T as `render` does. */
  method RegisterThenLookup<K(==), A(!new), E, T(!new)>(r: Registry<K, A, E>, t: GoType<T, A>, render: T -> E)
    returns (outcome: Outcome, f: Option<A --> E>, ok: bool)
    requires r.Valid()
    requires Reflects(r.typeOf, t)
    modifies r
    ensures r.Valid()
    ensures outcome == Panicked <==> KeyOf(r.typeOf, t) in old(r.customTypes)
    ensures outcome == Returned ==> ok && f.Some?
    ensures outcome == Returned ==> forall x :: f.value.requires(t.box(x)) && f.value(t.box(x)) == render(x)
  {
    outcome := r.Register(t, render);
    f, ok := r.Is(KeyOf(r.typeOf, t));
  }

  /** Two registrations for the same T: the second always panics, whatever
      either render function is, and the first one's wrapper stays. */
  method RegisterTwice<K(==), A(!new), E, T(!new)>(r: Registry<K, A, E>, t: GoType<T, A>, first: T -> E, second: T -> E)
    returns (o1: Outcome, o2: Outcome)
    requires r.Valid()
    requires Reflects(r.typeOf, t)
    modifies r
    ensures o1 == Panicked <==> KeyOf(r.typeOf, t) in old(r.customTypes)
    ensures o2 == Panicked
    ensures KeyOf(r.typeOf, t) in r.customTypes
    ensures r.customTypes[KeyOf(r.typeOf, t)] ==
              if KeyOf(r.typeOf, t) in old(r.customTypes) then old(r.customTypes)[KeyOf(r.typeOf, t)]
              else Wrap(t, first)
    ensures r.customTypes == old(r.customTypes)[KeyOf(r.typeOf, t) := r.customTypes[KeyOf(r.typeOf, t)]]
  {
    o1 := r.Register(t, first);
    o2 := r.Register(t, second);
  }

  // The table over the life of the process.  Registrations run one after the
  // other at start-up; the first panic ends the sequence with the table as it
  // stood.  Nothing else ever writes the table.

  /** The registrations `regs`, in order, on table `m`.  Keys are only
      added, and only by a registration. */
  function Replay<K, W>(m: map<K, W>, regs: seq<(K, W)>): (r: (Outcome, map<K, W>))
    ensures m.Keys <= r.1.Keys
    ensures forall k :: k in r.1 && k !in m ==> exists i :: 0 <= i < |regs| && regs[i].0 == k
    decreases |regs|
  {
    if regs == [] then (Returned, m)
    else
      var step := RegisterStep(m, regs[0].0, regs[0].1);
      if step.0 == Panicked then step else Replay(step.1, regs[1..])
  }

  /** No key of `regs` is in `m`, and no two registrations of `regs` share a key. */
  ghost predicate AllNew<K, W>(m: map<K, W>, regs: seq<(K, W)>)
  {
    && (forall i :: 0 <= i < |regs| ==> regs[i].0 !in m)
    && (forall i, j :: 0 <= i < j < |regs| ==> regs[i].0 != regs[j].0)
  }

  /** The wrapper of the first registration of `k` in `regs`, if any. */
  function FirstWith<K(==), W>(regs: seq<(K, W)>, k: K): Option<W>
  {
    if regs == [] then None
    else if regs[0].0 == k then Some(regs[0].1)
    else FirstWith(regs[1..], k)
  }

  /** `FirstWith` finds the first registration of `k`: the one at the index
      where `k` occurs and before which it does not. */
  lemma {:induction false} FirstWithIsFirst<K, W>(regs: seq<(K, W)>, k: K, w: W)
    ensures FirstWith(regs, k) == Some(w) <==>
              exists i :: 0 <= i < |regs| && regs[i] == (k, w) && forall j :: 0 <= j < i ==> regs[j].0 != k
    decreases |regs|
  {
    if regs != [] {
      FirstWithIsFirst(regs[1..], k, w);
      if regs[0].0 != k {
        if FirstWith(regs, k) == Some(w) {
          var i :| 0 <= i < |regs[1..]| && regs[1..][i] == (k, w) && forall j :: 0 <= j < i ==> regs[1..][j].0 != k;
          assert regs[i + 1] == (k, w);
          forall j | 0 <= j < i + 1
            ensures regs[j].0 != k
          {
            if j > 0 { assert regs[j] == regs[1..][j - 1]; }
          }
        }
        if exists i :: 0 <= i < |regs| && regs[i] == (k, w) && forall j :: 0 <= j < i ==> regs[j].0 != k {
          var i :| 0 <= i < |regs| && regs[i] == (k, w) && forall j :: 0 <= j < i ==> regs[j].0 != k;
          assert i > 0;
          assert regs[1..][i - 1] == (k, w);
          forall j | 0 <= j < i - 1
            ensures regs[1..][j].0 != k
          {
            assert regs[1..][j] == regs[j + 1];
          }
        }
      } else {
        if FirstWith(regs, k) == Some(w) {
          assert regs[0] == (k, w);
        }
      }
    }
  }

  /** The wrapper a key should end up with: the one already in the table, or
      else the one of its first registration. */
  function Winner<K(==), W>(m: map<K, W>, regs: seq<(K, W)>, k: K): Option<W>
  {
    if k in m then Some(m[k]) else FirstWith(regs, k)
  }

  /** The table only grows: an entry, once present, is never removed or
      reassigned, whichever registrations follow and whether they panic. */
  lemma {:induction false} ReplayKeepsEntries<K, W>(m: map<K, W>, regs: seq<(K, W)>)
    ensures forall k :: k in m ==> k in Replay(m, regs).1 && Replay(m, regs).1[k] == m[k]
    decreases |regs|
  {
    if regs != [] {
      var step := RegisterStep(m, regs[0].0, regs[0].1);
      if step.0 == Returned {
        ReplayKeepsEntries(step.1, regs[1..]);
      }
    }
  }

  /** A start-up sequence completes without a panic exactly when every
      registration is for a type not yet in the table and no type is
      registered twice. */
  lemma {:induction false} ReplayReturnsIff<K, W>(m: map<K, W>, regs: seq<(K, W)>)
    ensures Replay(m, regs).0 == Returned <==> AllNew(m, regs)
    decreases |regs|
  {
    if regs != [] {
      var (k0, w0) := regs[0];
      if k0 in m {
        assert !AllNew(m, regs) by { assert regs[0].0 in m; }
      } else {
        var m' := m[k0 := w0];
        ReplayReturnsIff(m', regs[1..]);
        if AllNew(m, regs) {
          forall i | 0 <= i < |regs[1..]|
            ensures regs[1..][i].0 !in m'
          {
            assert regs[1..][i] == regs[i + 1];
            assert regs[0].0 != regs[i + 1].0;
          }
          forall i, j | 0 <= i < j < |regs[1..]|
            ensures regs[1..][i].0 != regs[1..][j].0
          {
            assert regs[1..][i] == regs[i + 1] && regs[1..][j] == regs[j + 1];
          }
          assert AllNew(m', regs[1..]);
        }
        if AllNew(m', regs[1..]) {
          forall i | 0 <= i < |regs|
            ensures regs[i].0 !in m
          {
            if i > 0 { assert regs[i] == regs[1..][i - 1]; }
          }
          forall i, j | 0 <= i < j < |regs|
            ensures regs[i].0 != regs[j].0
          {
            assert regs[j] == regs[1..][j - 1];
            if i > 0 { assert regs[i] == regs[1..][i - 1]; }
          }
          assert AllNew(m, regs);
        }
      }
    }
  }

  /** No registration overwrites another: every entry of the resulting table
      holds the wrapper that was there before or, for a new key, the wrapper
      of the key's first registration; later ones for the same key panicked. */
  lemma {:induction false} ReplayFirstWins<K, W>(m: map<K, W>, regs: seq<(K, W)>)
    ensures forall k :: k in Replay(m, regs).1 ==> Winner(m, regs, k) == Some(Replay(m, regs).1[k])
    decreases |regs|
  {
    if regs != [] {
      var (k0, w0) := regs[0];
      if k0 !in m {
        var m' := m[k0 := w0];
        ReplayFirstWins(m', regs[1..]);
        forall k
          ensures Winner(m', regs[1..], k) == Winner(m, regs, k)
        {
        }
      }
    }
  }

  /** After a start-up sequence that did not panic, every registered type is
      found: the keys of the table are those of the initial table and of the
      registrations. */
  lemma {:induction false} ReplayFindsAll<K, W>(m: map<K, W>, regs: seq<(K, W)>)
    requires Replay(m, regs).0 == Returned
    ensures forall k :: k in Replay(m, regs).1 <==> Winner(m, regs, k).Some?
    decreases |regs|
  {
    if regs != [] {
      var (k0, w0) := regs[0];
      var m' := m[k0 := w0];
      ReplayFindsAll(m', regs[1..]);
      forall k
        ensures Winner(m', regs[1..], k) == Winner(m, regs, k)
      {
      }
    }
  }
}
