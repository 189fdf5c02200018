# Inplace: a verified model of a single-slot in-place cell

The crate defines `Inplace<T>`. It is a container that owns exactly one value of type `T`. It lets a caller
put a value-consuming function `T -> T` (or `T -> (T, R)`) to work on a struct field without any
placeholder value, `Default` or `Clone`. The value is moved out of the cell, given to the function by
ownership, and the function's replacement is written back.

The model has three modules:

- `InplaceCell` (`inplace.dfy`) holds the cell. The `MaybeUninit<T>` storage is the datatype
  `Slot<T> = Uninit | Init(value)`, kept in the class field `slot`. A ghost flag `consumed` records
  that `take` has moved the cell away. `Valid()` is the cell's invariant: the cell is alive and its
  slot is occupied. Every public operation requires it, and every one except `Take` re-establishes
  it. The field is private in the crate (src/lib.rs:6), so only `Inplace` and `Inplace_` ever vacate
  the slot. Their bodies do the `MaybeUninit::read` and `MaybeUninit::write` steps themselves: the
  read leaves the slot `Uninit`, so the moved-out value can be neither read again nor duplicated,
  and the write of the closure's result makes the slot occupied again before the method returns.
- `InplaceClient` (`client.dfy`) holds methods that build their own cells and state, from the cell's
  contracts alone, what a sequence of calls does: the construction/extraction round trip, result
  propagation, sequencing and composition, and reads and writes through references.
- `InplaceTests` (`tests.dfy`) holds the crate's own test: `UnclonableValue`, `change` (the string
  replacement of '0' by '1' as a per-character map), `change_inplace`, and the scenario `it_works`.

The closure of `inplace` returns the pair `(T, R)`: the replacement value first, the auxiliary result
second (src/lib.rs:11).

## Model

| member | source | states |
|---|---|---|
| `InplaceCell.Inplace.From` | src/lib.rs:22-24 | The new cell is alive and occupied, and it owns exactly `v`. |
| `InplaceCell.Inplace.Take` | src/lib.rs:9 | The call yields the value the cell owned. The cell is consumed: the slot is left untouched (a single move, not a read), and the invariant no longer holds, so no later operation can use the cell. |
| `InplaceCell.Inplace.Inplace` | src/lib.rs:11-15 | If `f(old) == (v, r)`, the call returns `r` and the cell then holds `v`. The cell is occupied on entry and on exit. The body asserts that the slot is vacated between its read and its write. |
| `InplaceCell.Inplace.Inplace_` | src/lib.rs:17-19 | The cell then holds `f(old)`, where `old` is the value it held before the call, and it is occupied again on exit. The body asserts that the slot is vacated between its read and its write. |
| `InplaceCell.Inplace.Borrow` | src/lib.rs:26-28 | Returns the value currently held and changes nothing (the method has no `modifies` clause). |
| `InplaceCell.Inplace.AsRef` | src/lib.rs:34-36 | Returns the value currently held and changes nothing. |
| `InplaceCell.Inplace.BorrowMut` | src/lib.rs:30-32 | A write through the mutable reference replaces the held value with the written one. The cell stays occupied, and no other state changes. |
| `InplaceCell.Inplace.AsMut` | src/lib.rs:38-40 | A write through the mutable reference replaces the held value with the written one. The cell stays occupied. |
| `InplaceClient.RoundTrip` | src/lib.rs:9-24 | `take` on a cell built `from(v)` yields `v`. |
| `InplaceClient.InplaceResult` | src/lib.rs:11-15 | On a cell built from `v`, `inplace(g)` returns the second component of `g(v)`, and a later `take` yields the first. |
| `InplaceClient.InplaceVoidResult` | src/lib.rs:11-19 | `inplace_(g)` then `take` yields `g(v)`. This agrees with `inplace` given a closure that returns `(g(x), ())`. |
| `InplaceClient.Sequencing` | src/lib.rs:17-19 | `inplace_(g)` then `inplace_(h)` leaves `h(g(v))`. This is the same as one `inplace_` of the composition. |
| `InplaceClient.ReadsChangeNothing` | src/lib.rs:26-36 | `borrow` and `as_ref` both see the value the cell was built from, and a later `take` still yields it. |
| `InplaceClient.WritesReplaceValue` | src/lib.rs:30-40 | After a write through `borrow_mut` or `as_mut`, the next read sees exactly the written value. |
| `InplaceTests.ReplaceZeros` | src/lib.rs:55 | The result has the input's length. At each position it holds '1' where the input has '0', and the input's character everywhere else. |
| `InplaceTests.Change` | src/lib.rs:54-56 | The changed value keeps the string's length and contains no '0'. |
| `InplaceTests.ChangeInplace` | src/lib.rs:58-60 | The cell then holds `change` of its previous value and is still occupied. |
| `InplaceTests.ReplaceZerosScenario` | src/lib.rs:55-67 | Replacing every '0' of "0123401234" with '1' gives exactly "1123411234", the string the test expects. |
| `InplaceTests.ItWorks` | src/lib.rs:62-68 | A cell built from "0123401234", changed in place and then taken, yields "1123411234". |

## Left out

- The `unsafe` memory reasoning of `MaybeUninit` (`assume_init`, `read`, `write`, `get_ref`, `get_mut`). The storage is the abstract datatype `Slot`. Its `Uninit` arm stands for bytes that may no longer be used.
- The nightly feature attributes (src/lib.rs:1-2) are compiler configuration and have no behaviour.
- The test's `Container<'a>` and its lifetime (src/lib.rs:50-52) are borrow-checker constructs. `ChangeInplace` takes the cell object directly.
- Closures that panic or never return. Dafny functions are total, so the closure passed to `Inplace` or `Inplace_` always returns. A cell left vacated by a panicking closure cannot arise in the model. A poisoned state is not modelled either.
- `InplaceCell.Inplace.Inplace`: "`f` is called exactly once" is not stated. A Dafny function is pure, so the number of calls is not observable.
- Non-duplicability of `T` is not enforced by Dafny's types, since every Dafny value can be copied. The model keeps it by construction instead: once `Inplace` or `Inplace_` has read the value out, the slot is `Uninit` and the value cannot be read out a second time.
- Dropping. `MaybeUninit` never drops what it holds, so that is a leak, not observable behaviour. A write through `borrow_mut`/`as_mut` drops the old value, and the model simply forgets it.
- `InplaceCell.Inplace.BorrowMut`, `InplaceCell.Inplace.AsMut`: the returned `&mut T` is modelled as one write of a new value through it. Reading through the mutable reference is what `Borrow` already models.
- `String::replace` in general. Only the single-character pattern the test uses is modelled, as `ReplaceZeros`.
- Equality, ordering, hashing, formatting, cloning and default delegation are not in the crate's code.
- Privacy of the storage field (src/lib.rs:6). Dafny cannot hide the field `slot`, so code outside the class could assign it. No member of this model does. The steps that vacate the slot exist only inside the bodies of `Inplace` and `Inplace_`, and no method returns with the slot vacated.
