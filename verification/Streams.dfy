/** Input streams of bytes (`elm::io::InStream`). */
module Streams {

  type byte = x: int | 0 <= x < 256

  /** An input stream: each read delivers as many bytes as it likes, but none only at the end. */
  class InStream {
    var rest: seq<byte>
    /** How many reads have failed. */
    ghost var errors: nat

    constructor (data: seq<byte>)
      ensures rest == data && errors == 0
    {
      rest := data;
      errors := 0;
    }

    /** -1 for an error, 0 at the end. */
    method Read(a: array<byte>, offset: nat, size: nat) returns (r: int)
      requires 0 < size && offset + size <= a.Length
      modifies this, a
      ensures r == -1 || (0 <= r <= size && r <= |old(rest)| && (r == 0 <==> old(rest) == []))
      ensures errors == old(errors) + if r == -1 then 1 else 0
      ensures r == -1 ==> rest == old(rest) && a[..] == old(a[..])
      ensures r >= 0 ==> rest == old(rest)[r..] && a[..offset + r] == old(a[..offset]) + old(rest)[..r]
      ensures r >= 0 ==> a[offset + r..] == old(a[offset + r..])
    {
      r := *;
      if r != -1 && !(0 <= r <= size && r <= |rest| && (r == 0 <==> rest == [])) {
        r := if rest == [] then 0 else 1;
      }
      if r >= 0 {
        ghost var before := a[..offset];
        for i := 0 to r
          modifies a
          invariant a[..offset + i] == before + rest[..i]
          invariant a[offset + r..] == old(a[offset + r..])
        {
          a[offset + i] := rest[i];
          assert a[..offset + i + 1] == a[..offset + i] + [rest[i]];
        }
        rest := rest[r..];
      } else {
        errors := errors + 1;
      }
    }
  }
}
