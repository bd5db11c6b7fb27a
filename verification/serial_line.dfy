/** The auxiliary port as the C and assembly programs of the guest use it, through INCH and OUTCH. */
module SerialLines {
  import opened Bytes

  /** `input` is what is still to arrive, `output` what has been sent. */
  class Line {
    var input: seq<byte>
    var output: seq<byte>

    constructor (input: seq<byte>)
      ensures this.input == input && output == []
    {
      this.input, output := input, [];
    }

    /** A blocking read; it does not come back (`ok` is false) when nothing more arrives. */
    method RxByte() returns (ok: bool, c: byte)
      modifies this`input
      ensures ok <==> old(input) != []
      ensures ok ==> [c] + input == old(input)
      ensures !ok ==> input == []
    {
      if input == [] {
        return false, 0;
      }
      ok, c := true, input[0];
      input := input[1..];
    }

    method TxByte(c: byte)
      modifies this`output
      ensures output == old(output) + [c]
    {
      output := output + [c];
    }
  }
}
