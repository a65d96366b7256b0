/** How LimpetSignWithIdentityHmacKeyEx feeds data to the TPM, whose buffers hold 1024 bytes. */
module Hmac {
  import opened ByteStrings

  const BUFFER: nat := 1024

  datatype Command =
    | Hmac(buffer: Bytes)
    | HmacStart
    | SequenceUpdate(buffer: Bytes)
    | SequenceComplete(buffer: Bytes)
  {
    predicate Fits() {
      HmacStart? || |buffer| <= BUFFER
    }
  }

  /** What the TPM has been fed since the last HmacStart. */
  function Fed(commands: seq<Command>): Bytes {
    if commands == [] then []
    else
      var (before, last) := (commands[..|commands| - 1], commands[|commands| - 1]);
      match last
      case Hmac(_) => Fed(before)
      case HmacStart => []
      case SequenceUpdate(b) => Fed(before) + b
      case SequenceComplete(b) => Fed(before) + b
  }

  /** The answer to the last command, `mac` being the keyed function the TPM computes. */
  function Response(mac: Bytes -> Bytes, commands: seq<Command>): Option<Bytes> {
    if commands == [] then None
    else
      match commands[|commands| - 1]
      case Hmac(b) => Some(mac(b))
      case SequenceComplete(_) => Some(mac(Fed(commands)))
      case _ => None
  }

  /** The commands sent: every buffer fits, and the answer is the HMAC of the whole data, whatever its length. */
  method Sign(mac: Bytes -> Bytes, data: Bytes) returns (commands: seq<Command>)
    requires |data| < 0x1_0000_0000
    ensures forall c :: c in commands ==> c.Fits()
    ensures Response(mac, commands) == Some(mac(data))
    ensures |commands| == if |data| <= BUFFER then 1 else 2 + (|data| - 1) / BUFFER
  {
    if |data| <= BUFFER {
      return [Hmac(data)];
    }
    commands := [HmacStart];
    var dataIndex := 0;
    while |data| - dataIndex > BUFFER
      invariant 0 <= dataIndex < |data| && dataIndex % BUFFER == 0
      invariant |commands| == 1 + dataIndex / BUFFER
      invariant forall c :: c in commands ==> c.Fits()
      invariant Fed(commands) == data[..dataIndex]
    {
      var chunk := data[dataIndex..dataIndex + BUFFER];
      Sent(commands, SequenceUpdate(chunk));
      commands := commands + [SequenceUpdate(chunk)];
      assert data[..dataIndex + BUFFER] == data[..dataIndex] + chunk;
      dataIndex := dataIndex + BUFFER;
    }
    var last := data[dataIndex..];
    Sent(commands, SequenceComplete(last));
    commands := commands + [SequenceComplete(last)];
    assert data == data[..dataIndex] + last;
  }

  lemma Sent(commands: seq<Command>, c: Command)
    requires c.SequenceUpdate? || c.SequenceComplete?
    ensures Fed(commands + [c]) == Fed(commands) + c.buffer
  {
    assert (commands + [c])[..|commands|] == commands;
  }
}
