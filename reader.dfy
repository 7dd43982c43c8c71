/** `strings.Reader` as the compiler uses it: only `ReadByte`, which hands out
    the next byte or reports the end of the input. */
module ByteReader {

  class Reader {
    const data: string
    var pos: nat

    ghost predicate Valid()
      reads this
    {
      pos <= |data|
    }

    /** The bytes not read yet. */
    function Rest(): string
      reads this
      requires Valid()
    {
      data[pos..]
    }

    /** `strings.NewReader(s)`. */
    constructor (s: string)
      ensures Valid() && Rest() == s
    {
      data := s;
      pos := 0;
    }

    /** `ReadByte`: the next byte and true, or false (Go's `io.EOF`) at the end. */
    method ReadByte() returns (b: char, ok: bool)
      requires Valid()
      modifies this
      ensures Valid()
      ensures ok <==> old(Rest()) != []
      ensures ok ==> b == old(Rest())[0] && Rest() == old(Rest())[1..]
      ensures !ok ==> Rest() == []
    {
      if pos < |data| {
        b, ok := data[pos], true;
        pos := pos + 1;
      } else {
        b, ok := 0 as char, false;
      }
    }
  }
}
