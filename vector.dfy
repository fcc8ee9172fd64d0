/**
 * Vector: a dense vector over an array of entries, either allocated (all zero) or the
 * caller's own array, kept without a copy.
 */
module Vectors {

  class Vector {
    const data: array<real>

    /** `new Vector(length)`: the zero vector of that length. */
    constructor (length: nat)
      ensures Length() == length && fresh(data)
      ensures forall i :: 0 <= i < length ==> data[i] == 0.0
    {
      data := new real[length](_ => 0.0);
    }

    /** `new Vector(params float[] data)`: a vector over the caller's array itself. */
    constructor FromArray(data: array<real>)
      ensures this.data == data && Length() == data.Length
    {
      this.data := data;
    }

    /** `new Vector(Vector3 source)`: the three coordinates x, y and z, in that order. */
    constructor FromVector3(x: real, y: real, z: real)
      ensures fresh(data) && data[..] == [x, y, z]
    {
      var a := new real[3];
      a[0], a[1], a[2] := x, y, z;
      data := a;
    }

    function Length(): int
    {
      data.Length
    }

    /** The getter of `this[i]`. */
    function Get(i: int): real
      requires 0 <= i < Length()
      reads data
    {
      data[i]
    }

    /** The setter of `this[i]`: entry `i` becomes `value` and no other entry changes. */
    method Set(i: int, value: real)
      requires 0 <= i < Length()
      modifies data
      ensures data[..] == old(data[..])[i := value]
      ensures Get(i) == value
    {
      data[i] := value;
    }
  }
}
