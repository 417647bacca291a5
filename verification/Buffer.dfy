/** The growable output buffer every printer in the program appends to. */
module Buffers {
  import opened Arithmetic

  class Buffer {
    var data: array<char>  // data.Length is the capacity
    var length: nat
    var failed: bool

    ghost predicate Valid()
      reads this, data
    {
      && data.Length <= SIZE_MAX
      && (data.Length == 0 ==> length == 0)
      && (data.Length > 0 ==> length < data.Length && data[length] == '\0')
    }

    ghost function Contents(): string
      requires Valid()
      reads this, data
    {
      data[..length]
    }

    constructor ()
      ensures Valid() && Contents() == "" && !failed && fresh(data)
    {
      data := new char[0];
      length := 0;
      failed := false;
    }

    /** Makes room for `extra` characters and the terminator, or fails for good when the size would overflow. */
    method Reserve(extra: nat) returns (ok: bool)
      requires Valid()
      modifies this
      ensures ok == (!old(failed) && old(length) + extra < SIZE_MAX)
      ensures failed == !ok && length == old(length)
      ensures data == old(data) || fresh(data)
      ensures data.Length <= SIZE_MAX && old(data.Length) <= data.Length
      ensures data[..length] == old(data[..length])
      ensures ok ==> length + extra < data.Length
      ensures !ok ==> Valid()
    {
      if failed {
        return false;
      }
      if extra > SIZE_MAX - length - 1 {
        failed := true;
        return false;
      }
      var needed := length + extra + 1;
      if needed <= data.Length {
        return true;
      }
      var next := if data.Length == 0 then 128 else data.Length;
      while next < needed
        invariant 0 < next <= SIZE_MAX
        decreases needed - next
      {
        if next > SIZE_MAX / 2 {
          next := needed;
          break;
        }
        next := next * 2;
      }
      var grown := new char[next];
      forall i | 0 <= i < length {
        grown[i] := data[i];
      }
      data := grown;
      return true;
    }

    /** `ch_json_append`: appends all of `value` and the terminator, or leaves the contents alone and fails for good. */
    method Append(value: string) returns (ok: bool)
      requires Valid()
      modifies this, data
      ensures Valid() && (data == old(data) || fresh(data))
      ensures ok == (!old(failed) && |old(Contents())| + |value| < SIZE_MAX)
      ensures failed == !ok
      ensures Contents() == if ok then old(Contents()) + value else old(Contents())
    {
      ghost var before := data[..length];
      ok := Reserve(|value|);
      if !ok {
        return;
      }
      forall i | 0 <= i < |value| {
        data[length + i] := value[i];
      }
      length := length + |value|;
      data[length] := '\0';
      assert data[..length] == before + value;
    }
  }
}
