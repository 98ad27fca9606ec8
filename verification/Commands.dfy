/** The host's command language: one byte, followed by one parameter byte for codes from 128 on. */
module Commands {
  import opened Bytes

  datatype Command = Command(code: byte, parameter: Option<byte>)

  /** s is a sequence of complete commands. */
  predicate Complete(s: seq<byte>) {
    if s == [] then true
    else if s[0] < 128 then Complete(s[1..])
    else 2 <= |s| && Complete(s[2..])
  }

  /** The commands in s, as far as they are complete. */
  function Decode(s: seq<byte>): seq<Command> {
    if s == [] then []
    else if s[0] < 128 then [Command(s[0], None)] + Decode(s[1..])
    else if |s| == 1 then []
    else [Command(s[0], Some(s[1]))] + Decode(s[2..])
  }

  /** Codes below 128 stand alone, the others are followed by a parameter. */
  lemma FirstCommand(code: byte, parameter: byte, rest: seq<byte>)
    ensures code < 128 ==> Decode([code] + rest) == [Command(code, None)] + Decode(rest)
    ensures 128 <= code ==> Decode([code, parameter] + rest) == [Command(code, Some(parameter))] + Decode(rest)
  {
    if code < 128 {
      assert ([code] + rest)[1..] == rest;
    } else {
      assert ([code, parameter] + rest)[2..] == rest;
    }
  }

  lemma {:induction false} CompleteConcat(a: seq<byte>, b: seq<byte>)
    requires Complete(a)
    ensures Complete(a + b) <==> Complete(b)
    ensures Decode(a + b) == Decode(a) + Decode(b)
  {
    if a == [] {
      assert a + b == b;
    } else {
      var n := if a[0] < 128 then 1 else 2;
      assert (a + b)[n..] == a[n..] + b;
      CompleteConcat(a[n..], b);
    }
  }
}
