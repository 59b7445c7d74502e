/** The one array idiom every in-place sort of the catalogue writes out by hand: the
    exchange of two slots through a temporary. */
module Arrays {
  import opened Seqs

  /** `int temp = array[x]; array[x] = array[y]; array[y] = temp;` */
  method Swap(a: array<int>, x: int, y: int)
    requires 0 <= x < a.Length && 0 <= y < a.Length
    modifies a
    ensures a[..] == Swapped(old(a[..]), x, y)
  {
    var temp := a[x];
    a[x] := a[y];
    a[y] := temp;
  }
}
