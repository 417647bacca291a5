/** The capture as it is written: a header buffer that grows, and a body preview. */
module CaptureRecorder {
  import opened Text
  import opened Arithmetic
  import opened StatusLine
  import opened Capture

  /** The capacity that holds `needed`, by doubling up to the limit. */
  method Capacity(capacity: nat, needed: nat) returns (next: nat)
    requires capacity <= MAX_HEADER && needed <= MAX_HEADER
    ensures capacity <= next <= MAX_HEADER && needed <= next && next > 0
  {
    next := if capacity == 0 then 8192 else capacity;
    while next < needed
      invariant 0 < next <= MAX_HEADER && capacity <= next
      decreases MAX_HEADER - next
    {
      next := if next > MAX_HEADER / 2 then MAX_HEADER else next * 2;
    }
  }

  class Recorder<H> {
    const parse: string -> H
    const limit: nat
    var buffer: array<char>
    var length: nat
    var overflow: bool
    var complete: bool
    var status: int
    var headers: Option<H>
    var size: nat
    var preview: string

    ghost predicate Valid()
      reads this
    {
      && size <= SIZE_MAX && length <= MAX_HEADER
      && (buffer.Length == 0 ==> length == 0)
      && (buffer.Length > 0 ==> length < buffer.Length <= MAX_HEADER + 1)
    }

    ghost function Now(): State<H>
      requires Valid()
      reads this, buffer
    {
      State(limit, buffer[..length], overflow, complete, status, headers, Body(limit, size, preview))
    }

    constructor (parse: string -> H, limit: nat)
      ensures Valid() && this.parse == parse && this.limit == limit && Now() == Start(limit) && fresh(buffer)
    {
      this.parse, this.limit := parse, limit;
      buffer := new char[0];
      length, overflow, complete, status, headers := 0, false, false, 0, None;
      size, preview := 0, "";
    }

    method WriteBody(bytes: string)
      requires Valid()
      modifies this`size, this`preview
      ensures Valid() && Body(limit, size, preview) == Write(old(Body(limit, size, preview)), bytes)
    {
      if bytes == "" {
        return;
      }
      if SIZE_MAX - size < |bytes| {
        size := SIZE_MAX;
      } else {
        size := size + |bytes|;
      }
      var room := if |preview| >= limit then 0 else limit - |preview|;
      var copied := if |bytes| < room then |bytes| else room;
      preview := preview + bytes[..copied];
    }

    /** The chunk is added to the header buffer, which grows when it must. */
    method Store(bytes: string)
      requires Valid() && bytes != "" && length + |bytes| <= MAX_HEADER
      modifies this`buffer, this`length, buffer
      ensures Valid() && buffer[..length] == old(buffer[..length]) + bytes && (buffer == old(buffer) || fresh(buffer))
    {
      var needed := length + |bytes|;
      if needed >= buffer.Length {
        var capacity := Capacity(if buffer.Length == 0 then 0 else buffer.Length - 1, needed);
        var grown := new char[capacity + 1](_ => '\0');
        forall i | 0 <= i < length {
          grown[i] := buffer[i];
        }
        buffer := grown;
      }
      forall i | 0 <= i < |bytes| {
        buffer[length + i] := bytes[i];
      }
      length := needed;
      buffer[length] := '\0';
    }

    method Receive(bytes: string)
      requires Valid()
      modifies this, buffer
      ensures Valid() && Now() == Feed(parse, old(Now()), bytes) && (buffer == old(buffer) || fresh(buffer))
    {
      hide Write, StatusIn, FindEnd;
      if bytes == "" {
        return;
      }
      if complete {
        WriteBody(bytes);
        return;
      }
      if |bytes| > MAX_HEADER - length {
        overflow := true;
        return;
      }
      Store(bytes);
      var text := buffer[..length];
      var end := FindEnd(text);
      if end.None? {
        return;
      }
      status := StatusIn(text, status);
      headers := Some(parse(text[..end.value + 2]));
      size, preview := 0, "";
      complete := true;
      WriteBody(text[end.value + 4..]);
    }
  }
}
