/** The io.Reader and io.Writer that the rev-file codec consumes and fills. */
module Streams {
  import opened Bytes

  /** The outcome of reading one item: its value or error, and the input that is left. */
  datatype Parsed<+T> = Parsed(result: Result<T>, rest: Buf)

  /** io.ReadFull on a reader with `s` left: all `n` bytes, or an error and an exhausted reader. */
  function TakeFull(s: Buf, n: nat): Parsed<Buf> {
    if n <= |s| then Parsed(Ok(s[..n]), s[n..])
    else if s == [] then Parsed(Err(EndOfFile), [])
    else Parsed(Err(UnexpectedEndOfFile), [])
  }

  lemma TakePrefix(item: Buf, rest: Buf)
    ensures TakeFull(item + rest, |item|) == Parsed(Ok(item), rest)
  {
    assert (item + rest)[..|item|] == item && (item + rest)[|item|..] == rest;
  }

  class Reader {
    const data: Buf
    var pos: nat

    ghost predicate Valid()
      reads this
    {
      pos <= |data|
    }

    function Rest(): Buf
      requires Valid()
      reads this
    {
      data[pos..]
    }

    constructor (data: Buf)
      ensures Valid() && Rest() == data
    {
      this.data := data;
      this.pos := 0;
    }

    method ReadFull(n: nat) returns (r: Result<Buf>)
      requires Valid()
      modifies this
      ensures Valid() && Parsed(r, Rest()) == TakeFull(old(Rest()), n)
    {
      assert data[pos..][..Min(n, |data| - pos)] == data[pos..pos + Min(n, |data| - pos)];
      if n <= |data| - pos {
        r := Ok(data[pos..pos + n]);
        assert data[pos..][n..] == data[pos + n..];
        pos := pos + n;
      } else {
        r := Err(if pos == |data| then EndOfFile else UnexpectedEndOfFile);
        pos := |data|;
      }
    }
  }

  class Writer {
    var out: Buf

    constructor ()
      ensures out == []
    {
      out := [];
    }

    method Write(p: Buf)
      modifies this
      ensures out == old(out) + p
    {
      out := out + p;
    }
  }
}
