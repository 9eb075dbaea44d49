/**
 PKCS#7 padding to 16-byte blocks (section 6.3 of RFC 5652), with the
 error cases of the `pad`/`unpad` helpers the protocol client calls.
 */
module Pkcs7 {
  import opened Values

  const BlockSize: nat := 16

  /** Why `unpad` refused its input. */
  datatype PadError = ZeroLength | NotBlockAligned | BadPaddingLength | BadPaddingBytes

  /** `pad(data, 16, style="pkcs7")`: `16 - len % 16` copies of that count. */
  function Pad(data: seq<byte>): (r: seq<byte>)
    ensures |r| % BlockSize == 0 && |data| < |r| <= |data| + BlockSize
    ensures r[..|data|] == data
    ensures forall i :: |data| <= i < |r| ==> r[i] == |r| - |data|
  {
    var n := BlockSize - |data| % BlockSize;
    data + seq(n, _ => n as byte)
  }

  /** `unpad(data, 16, style="pkcs7")`, checking the conditions in the order the library does. */
  function Unpad(data: seq<byte>): Result<seq<byte>, PadError>
  {
    if |data| == 0 then Err(ZeroLength)
    else if |data| % BlockSize != 0 then Err(NotBlockAligned)
    else
      var n := data[|data| - 1] as nat;
      if n < 1 || n > BlockSize || n > |data| then Err(BadPaddingLength)
      else if data[|data| - n..] != seq(n, _ => n as byte) then Err(BadPaddingBytes)
      else Ok(data[..|data| - n])
  }

  /** Unpadding a padded message gives the message back. */
  lemma UnpadPad(data: seq<byte>)
    ensures Unpad(Pad(data)) == Ok(data)
  {
    var p := Pad(data);
    var n := BlockSize - |data| % BlockSize;
    assert p[|p| - 1] as nat == n;
    assert p[|p| - n..] == seq(n, _ => n as byte);
  }

  /** Conversely, whatever `unpad` accepts is exactly the padding of what it returns. */
  lemma PadUnpad(data: seq<byte>)
    requires Unpad(data).Ok?
    ensures Pad(Unpad(data).value) == data
  {
    var n := data[|data| - 1] as nat;
    var m := data[..|data| - n];
    assert |m| % BlockSize == BlockSize - n || n == BlockSize;
    assert BlockSize - |m| % BlockSize == n;
    assert data == m + data[|data| - n..];
  }
}
