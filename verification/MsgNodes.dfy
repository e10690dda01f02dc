/** The buffers in which messages travel. */
module MsgNodes {
  import opened Wire

  /** `memcpy`; `src` is the source range, so both ranges lie inside their buffers. */
  method Memcpy(dst: array<byte>, at: nat, src: seq<byte>)
    requires at + |src| <= dst.Length
    modifies dst
    ensures dst[..] == old(dst[..at]) + src + old(dst[at + |src|..])
    ensures forall i | 0 <= i < dst.Length :: dst[i] == if at <= i < at + |src| then src[i - at] else old(dst[i])
  {
    forall i | 0 <= i < |src| {
      dst[at + i] := src[i];
    }
  }

  /** `memset` to zero of the first `n` bytes. */
  method Memzero(dst: array<byte>, n: nat)
    requires n <= dst.Length
    modifies dst
    ensures dst[..] == seq(n, _ => 0) + old(dst[n..])
  {
    forall i | 0 <= i < n {
      dst[i] := 0;
    }
  }

  /** The source's `MsgNode` with its two derived classes, which add `msgId` only;
      a plain node has id 0. */
  class MsgNode {
    const totalLen: nat
    const msgId: Short
    const data: array<byte>
    var curLen: nat

    ghost predicate Valid()
      reads this
    {
      totalLen <= 0x7FFF && data.Length == totalLen + 1 && curLen <= totalLen
    }

    /** A received node that carries a message, zero-terminated. */
    ghost predicate Carries(m: Msg)
      reads this, data
    {
      Valid() && m == Msg(msgId, data[..totalLen]) && data[totalLen] == 0
    }

    /** The same with the cursor at the end, where the logic server's worker reads
        the length of the payload from. */
    ghost predicate Holds(m: Msg)
      reads this, data
    {
      Carries(m) && curLen == totalLen
    }

    constructor (maxLen: nat)
      requires maxLen <= 0x7FFF
      ensures Valid() && fresh(data)
      ensures totalLen == maxLen && curLen == 0 && msgId == 0
      ensures forall i | 0 <= i <= totalLen :: data[i] == 0
    {
      totalLen, curLen, msgId := maxLen, 0, 0;
      data := new byte[maxLen + 1](_ => 0);
    }

    constructor Recv(maxLen: nat, id: Short)
      requires maxLen <= 0x7FFF
      ensures Valid() && fresh(data)
      ensures totalLen == maxLen && curLen == 0 && msgId == id
      ensures forall i | 0 <= i <= totalLen :: data[i] == 0
    {
      totalLen, curLen, msgId := maxLen, 0, id;
      data := new byte[maxLen + 1](_ => 0);
    }

    /** The encoder: the id and the length in network byte order, then the payload. */
    constructor Send(msg: seq<byte>, id: Short)
      requires |msg| <= MAX_PAYLOAD
      ensures Valid() && fresh(data)
      ensures data[..totalLen] == Encode(Msg(id, msg)) && data[totalLen] == 0
      ensures data[0] as int * 256 + data[1] as int == (if id < 0 then id + 0x1_0000 else id)
      ensures data[2] as int * 256 + data[3] as int == |msg| && data[4..4 + |msg|] == msg
      ensures totalLen == HEAD_TOTAL_LEN + |msg| && msgId == id && curLen == 0
    {
      totalLen, curLen, msgId := HEAD_TOTAL_LEN + |msg|, 0, id;
      data := new byte[HEAD_TOTAL_LEN + |msg| + 1](_ => 0);
      new;
      assert data[totalLen] == 0;
      Memcpy(data, 0, ShortBytes(id));
      Memcpy(data, HEAD_ID_LEN, ShortBytes(|msg|));
      Memcpy(data, HEAD_ID_LEN + HEAD_DATA_LEN, msg);
      assert data[..2] == ShortBytes(id) && data[2..4] == ShortBytes(|msg|) && data[4..totalLen] == msg;
      assert data[..totalLen] == data[..2] + data[2..4] + data[4..totalLen];
    }

    method Clear()
      requires Valid()
      modifies this`curLen, data
      ensures Valid() && curLen == 0
      ensures data[..] == seq(totalLen, _ => 0) + old(data[totalLen..])
    {
      Memzero(data, totalLen);
      curLen := 0;
    }
  }
}
