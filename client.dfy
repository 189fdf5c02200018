/** What a caller of `Inplace<T>` can conclude from the cell's contracts alone. Every method
    here works on cells it allocates itself, so it changes no existing state. */
module InplaceClient {
  import I = InplaceCell

  /** Building a cell from `v` and taking it back yields `v` itself. */
  method RoundTrip<T>(v: T) returns (w: T)
    ensures w == v
  {
    var cell := new I.Inplace.From(v);
    w := cell.Take();
  }

  /** `inplace(g)` on a cell holding `v` returns the auxiliary half of `g(v)`, and the cell
      then holds the replacement half. */
  method InplaceResult<T, R>(v: T, g: T -> (T, R)) returns (r: R, w: T)
    ensures (w, r) == g(v)
  {
    var cell := new I.Inplace.From(v);
    r := cell.Inplace(g);
    w := cell.Take();
  }

  /** `inplace_(g)` on a cell holding `v` leaves it holding `g(v)`, and it gives the same
      final value as `inplace` with a closure that returns `()` as its auxiliary result. */
  method InplaceVoidResult<T>(v: T, g: T -> T) returns (viaVoid: T, viaUnit: T)
    ensures viaVoid == g(v)
    ensures viaUnit == viaVoid
  {
    var c1 := new I.Inplace.From(v);
    c1.Inplace_(g);
    viaVoid := c1.Take();
    var c2 := new I.Inplace.From(v);
    var _ := c2.Inplace(x => (g(x), ()));
    viaUnit := c2.Take();
  }

  /** Two `inplace_` calls, `g` then `h`, leave the cell as one `inplace_` with their
      composition does: holding `h(g(v))`. */
  method Sequencing<T>(v: T, g: T -> T, h: T -> T) returns (twice: T, once: T)
    ensures twice == h(g(v))
    ensures once == twice
  {
    var c1 := new I.Inplace.From(v);
    c1.Inplace_(g);
    c1.Inplace_(h);
    twice := c1.Take();
    var c2 := new I.Inplace.From(v);
    c2.Inplace_(x => h(g(x)));
    once := c2.Take();
  }

  /** `borrow` and `as_ref` see the value the cell was built from and leave it in place,
      so a later `take` still yields it. */
  method ReadsChangeNothing<T>(v: T) returns (borrowed: T, referenced: T, taken: T)
    ensures borrowed == v && referenced == v && taken == v
  {
    var cell := new I.Inplace.From(v);
    borrowed := cell.Borrow();
    referenced := cell.AsRef();
    taken := cell.Take();
  }

  /** A write through `borrow_mut` or `as_mut` replaces the owned value: the next read sees
      exactly what was written, whatever the cell held before. */
  method WritesReplaceValue<T>(v: T, x: T, y: T) returns (afterBorrowMut: T, afterAsMut: T)
    ensures afterBorrowMut == x && afterAsMut == y
  {
    var cell := new I.Inplace.From(v);
    cell.BorrowMut(x);
    afterBorrowMut := cell.Borrow();
    cell.AsMut(y);
    afterAsMut := cell.Take();
  }
}
