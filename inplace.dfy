/** The `Inplace<T>` cell of `src/lib.rs`: a single slot that owns one value and lets a caller
    run a value-consuming function on it "in place", by moving the value out, handing it to the
    function by ownership and writing the function's replacement back. */
module InplaceCell {

  /** The `MaybeUninit<T>` storage, seen logically: `Init(v)` while the slot owns `v`,
      `Uninit` once the value has been moved out and nothing has been written back yet. */
  datatype Slot<T> = Uninit | Init(value: T)

  class Inplace<T> {
    /** The storage (`self.0`). The crate keeps it private, so it is only ever vacated inside
        `Inplace` and `Inplace_`. */
    var slot: Slot<T>
    /** True once `take` has moved the cell itself away; nothing may use the cell after that. */
    ghost var consumed: bool

    /** The cell's invariant, which holds at the start and end of every public operation:
        the cell is still alive and its slot is occupied. */
    ghost predicate Valid()
      reads this
    {
      !consumed && slot.Init?
    }

    /** The value the cell currently owns. */
    ghost function Value(): T
      reads this
      requires Valid()
    {
      slot.value
    }

    /** `From::from`: moves `v` into a fresh, occupied cell. */
    constructor From(v: T)
      ensures Valid() && Value() == v
    {
      slot := Init(v);
      consumed := false;
    }

    /** `take`: consumes the cell and yields the value it owns. This is a single move of the
        whole cell, so the slot is left as it is and the cell is dead afterwards. */
    method Take() returns (v: T)
      requires Valid()
      modifies this
      ensures v == old(Value())
      ensures consumed && slot == old(slot)
      ensures !Valid()
    {
      v := slot.value;
      consumed := true;
    }

    /** `inplace`: `f` receives the owned value and returns the replacement together with an
        auxiliary result (in that order). The replacement is written back and the auxiliary
        result returned; the slot is vacated only between the read and the write. */
    method Inplace<R>(f: T -> (T, R)) returns (r: R)
      requires Valid()
      modifies this
      ensures Valid()
      ensures (Value(), r) == f(old(Value()))
    {
      // `self.0.read()`: the value moves out and the slot is vacated until the write below.
      var x := slot.value;
      slot := Uninit;
      assert !Valid();
      var (v, res) := f(x);
      // `self.0.write(v)`: the slot is occupied again before the call returns.
      slot := Init(v);
      r := res;
    }

    /** `inplace_`: the owned value is replaced by what `f` makes of it. */
    method Inplace_(f: T -> T)
      requires Valid()
      modifies this
      ensures Valid()
      ensures Value() == f(old(Value()))
    {
      var x := slot.value;
      slot := Uninit;
      assert !Valid();
      slot := Init(f(x));
    }

    /** `Borrow::borrow`: the value currently owned, by shared reference. */
    method Borrow() returns (v: T)
      requires Valid()
      ensures v == Value()
    {
      v := slot.value;
    }

    /** `AsRef::as_ref`: the same shared view as `Borrow`. */
    method AsRef() returns (v: T)
      requires Valid()
      ensures v == Value()
    {
      v := slot.value;
    }

    /** `BorrowMut::borrow_mut`, followed by a write of `v` through the returned reference:
        the owned value is replaced by `v`, and the cell stays occupied. */
    method BorrowMut(v: T)
      requires Valid()
      modifies this
      ensures Valid() && Value() == v
    {
      slot := Init(v);
    }

    /** `AsMut::as_mut`, followed by a write of `v` through the returned reference. */
    method AsMut(v: T)
      requires Valid()
      modifies this
      ensures Valid() && Value() == v
    {
      slot := Init(v);
    }
  }
}
