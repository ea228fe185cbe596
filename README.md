# valast custom type registry, in Dafny

valast turns Go values into Go source expressions (`ast.Expr`). Its
`customtype` package lets a program override how the values of one type are
rendered. `Register[T](render)` stores a renderer for T in a package-level map
keyed by `reflect.Type`. `Is(rt)` looks a `reflect.Type` up in that map. This
project models that map and its two operations, and proves what they promise.

Everything is in `customtype.dfy`, module `CustomType`:

- `Registry<K, A, E>` is the package-level table. `K` stands for `reflect.Type`,
  `A` for an erased Go value (`any`) and `E` for `ast.Expr`. The field
  `customTypes: map<K, A --> E>` is the Go map. The constant `typeOf` is
  `reflect.TypeOf`.
- `GoType<T, A>` stands for the Go runtime's view of one type T. It holds T's
  zero value, boxing a T into an `any`, and the type assertion `value.(T)`,
  which gives `None` where Go would panic. `Reflects(typeOf, t)` states what
  the Go runtime guarantees of a non-interface type T: unboxing a boxed value
  gives it back, and the assertion succeeds exactly on values whose dynamic
  type is the type of T's zero value.
- The stored wrapper is a partial function `A --> E`. Its precondition is the
  type assertion `value.(T)`; applying it to a value of another type is the
  caller-side contract violation that makes the Go wrapper panic.
- A panic in `Register` is the outcome `Panicked`. The table is unchanged on
  that path, because the Go code panics before the write at line 30.
- `Replay` runs a start-up sequence of registrations in order and stops at the
  first panic. The lemmas about it state what holds over the life of the
  process: the table only grows, entries are never overwritten, and a
  sequence completes exactly when no type is registered twice.
- The class invariant `Registry.Valid` says that every stored wrapper accepts
  every value whose dynamic type is its key. So a caller that looks a value up
  by its own type never reaches a failing type assertion. `Register` keeps
  this invariant.

## Model

| member | source | states |
|---|---|---|
| `CustomType.KeyOf` | customtype/customtype.go:25-26 | The key is the `reflect.Type` of T's zero value, and every value of T has that same dynamic type. So the key depends on T alone, never on the render function. |
| `CustomType.Wrap` | customtype/customtype.go:30 | The type-erasing wrapper accepts every boxed value of T. On such a value it returns exactly what `render` returns. |
| `CustomType.RegisterStep` | customtype/customtype.go:27-30 | One registration as a transition on the table. It panics exactly when the key is present. The keys afterwards are the old keys plus this one, every old entry keeps its wrapper, and on a normal return the key holds the new wrapper. |
| `CustomType.Registry.constructor` | customtype/customtype.go:12 | The table starts empty and satisfies the invariant `Valid`. |
| `CustomType.Registry.Register` | customtype/customtype.go:23-32 | It panics exactly when T's key is already present, and then the table is unchanged. Otherwise the key is bound to the wrapper of `render`. No other key changes, and `Valid` is kept. |
| `CustomType.Registry.Is` | customtype/customtype.go:36-42 | `ok` holds exactly when the key is present. Then the result is the stored wrapper; on a miss it is nil (`None`). The method has no `modifies` clause, so the table is the same afterwards. Under `Valid`, a found wrapper accepts every value whose dynamic type is `rt`. |
| `CustomType.RegisterThenLookup` | customtype/customtype.go:23-42 | After `Register` returns normally, `Is` on T's key finds a wrapper. That wrapper renders every value of T as `render` does. `Register` panics exactly when the key was already there. |
| `CustomType.RegisterTwice` | customtype/customtype.go:25-30 | The first registration panics exactly when T was already registered. The second always panics, whatever render functions are given. Only T's key may have changed: it holds the wrapper it had before, or else the first call's wrapper. |
| `CustomType.Replay` | customtype/customtype.go:23-32 | A start-up sequence of `Register` calls, run in order and ended by the first panic. Keys are only added, and a new key always comes from one of the registrations. |
| `CustomType.FirstWithIsFirst` | customtype/customtype.go:27-30 | The first-registration reference finds `(k, w)` exactly when some registration is `(k, w)` and no earlier one has key `k`. |
| `CustomType.ReplayKeepsEntries` | customtype/customtype.go:27-30 | Over any sequence of registrations, an entry once present stays present with the same wrapper. |
| `CustomType.ReplayReturnsIff` | customtype/customtype.go:27-30 | A sequence of registrations completes without a panic if and only if each key is new to the table and no key occurs twice. |
| `CustomType.ReplayFirstWins` | customtype/customtype.go:27-30 | Every entry of the resulting table holds the wrapper it held before or, for a new key, the wrapper of that key's first registration. A key never registered is not in the table, so `Is` misses it. |
| `CustomType.ReplayFindsAll` | customtype/customtype.go:30 | After a sequence that did not panic, a key is in the table exactly when it was there before or was registered. |

## Left out

- The `sync.Mutex` (lines 11, 24, 31, 37-38) is concurrency. The operations are modelled as sequential methods on one object. One quirk lies outside the model: on the duplicate panic at line 28, the `Unlock` at line 31 is never reached, because it is not deferred. A recovered panic would therefore leave the mutex locked.
- `reflect.TypeOf` is a runtime reflection call. It is the uninterpreted constant `Registry.typeOf`. Interface-typed T is not modelled: for such a T the zero value's type is nil, and `Reflects` does not hold.
- `go/ast` expression construction is left out; `E` is an opaque type.
- The panic message built with `fmt.Sprintf` at line 28 is left out; only the fact of the panic is modelled.
- The doc comment at line 22 restricts the mechanism to struct types. The code does not enforce this, so the model does not either.
- A panic is an outcome that the caller can observe. Go ends the process unless the panic is recovered. Even after a recovery the mutex stays locked, so the next call would block. `Replay` models both cases by stopping at the first panic.
- `Registry.Register` requires `Reflects(typeOf, t)`. This is an assumption about the Go runtime, which every non-interface Go type meets; it is not a check the Go code makes.
