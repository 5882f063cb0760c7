/**
 * The de-obfuscation of the text fields of an IES file (IesFile.DecryptString):
 * every byte is XORed with the key 1, and the trailing run of U+0001, the image
 * of the NUL padding under that key, is trimmed.
 *
 * The model works on bytes: decoding UTF-8 is a library call left out of the
 * model. Byte 0x01 is always a character of its own in UTF-8, so trimming
 * trailing 0x01 bytes before decoding gives the text the source gets by
 * trimming U+0001 after decoding.
 */
module StringCodec {
  import opened Primitives

  /** The key IesFile's constructor stores in _xorKey. */
  const XOR_KEY: byte := 1

  /** U+0001, the character TrimEnd strips. */
  const PAD: byte := 1

  /** The key applied to every byte. */
  function Xored(data: seq<byte>): seq<byte>
    decreases |data|
  {
    if data == [] then [] else Xored(data[..|data| - 1]) + [data[|data| - 1] ^ XOR_KEY]
  }

  lemma {:induction false} XoredBytes(data: seq<byte>)
    ensures |Xored(data)| == |data|
    ensures forall i :: 0 <= i < |data| ==> Xored(data)[i] == data[i] ^ XOR_KEY
    decreases |data|
  {
    if data != [] {
      XoredBytes(data[..|data| - 1]);
    }
  }

  /** String.TrimEnd('\x0001'): drops the trailing run of PAD. */
  function TrimEnd(s: seq<byte>): seq<byte>
    decreases |s|
  {
    if |s| > 0 && s[|s| - 1] == PAD then TrimEnd(s[..|s| - 1]) else s
  }

  /** TrimEnd keeps the longest prefix that does not end in PAD: what it cuts off is all PAD. */
  lemma {:induction false} TrimEndShape(s: seq<byte>)
    ensures var r := TrimEnd(s);
            && |r| <= |s| && r == s[..|r|]
            && (r == [] || r[|r| - 1] != PAD)
            && (forall k :: |r| <= k < |s| ==> s[k] == PAD)
    decreases |s|
  {
    if |s| > 0 && s[|s| - 1] == PAD {
      TrimEndShape(s[..|s| - 1]);
    }
  }

  /** The text DecryptString returns for a field. */
  function Decrypted(data: seq<byte>): seq<byte> {
    TrimEnd(Xored(data))
  }

  /**
   * The decrypted text is never longer than the field, never ends in U+0001,
   * is the XORed field cut short, and what is cut off is NUL padding.
   */
  lemma DecryptedShape(data: seq<byte>)
    ensures var r := Decrypted(data);
            && |r| <= |data|
            && (r == [] || r[|r| - 1] != PAD)
            && (forall i :: 0 <= i < |r| ==> r[i] == data[i] ^ XOR_KEY)
            && (forall k :: |r| <= k < |data| ==> data[k] == 0)
            && (data == [] ==> r == [])
  {
    var x := Xored(data);
    XoredBytes(data);
    TrimEndShape(x);
    var r := TrimEnd(x);
    forall k | |r| <= k < |data|
      ensures data[k] == 0
    {
      assert x[k] == PAD;
      assert data[k] == (data[k] ^ XOR_KEY) ^ XOR_KEY;
    }
  }

  /** The field an encoder would write: the text under the key, then `padding` NUL bytes. */
  function Encrypted(text: seq<byte>, padding: nat): seq<byte> {
    Xored(text) + seq(padding, _ => 0)
  }

  /** Trimming PAD from text followed by PADs gives the text back. */
  lemma {:induction false} TrimEndPadded(text: seq<byte>, n: nat)
    requires text == [] || text[|text| - 1] != PAD
    ensures TrimEnd(text + seq(n, _ => PAD)) == text
    decreases n
  {
    var s := text + seq(n, _ => PAD);
    if n == 0 {
      assert s == text;
    } else {
      assert s[|s| - 1] == PAD;
      assert s[..|s| - 1] == text + seq(n - 1, _ => PAD);
      TrimEndPadded(text, n - 1);
    }
  }

  /** Round trip: any text that does not end in U+0001 survives encryption and NUL padding. */
  lemma {:induction false} DecryptEncrypt(text: seq<byte>, padding: nat)
    requires text == [] || text[|text| - 1] != PAD
    ensures Decrypted(Encrypted(text, padding)) == text
  {
    var e := Encrypted(text, padding);
    XoredBytes(text);
    XoredBytes(e);
    assert Xored(e) == text + seq(padding, _ => PAD) by {
      forall i | 0 <= i < |e|
        ensures Xored(e)[i] == (text + seq(padding, _ => PAD))[i]
      {
        if i < |text| {
          assert e[i] == text[i] ^ XOR_KEY;
          assert (text[i] ^ XOR_KEY) ^ XOR_KEY == text[i];
        }
      }
    }
    TrimEndPadded(text, padding);
  }

  /** IesFile.DecryptString: XOR into a fresh buffer, then trim. */
  method DecryptString(data: seq<byte>) returns (text: seq<byte>)
    ensures text == Decrypted(data)
  {
    var bytes := new byte[|data|];
    for i := 0 to |data|
      invariant forall k :: 0 <= k < i ==> bytes[k] == data[k] ^ XOR_KEY
    {
      bytes[i] := data[i] ^ XOR_KEY;
    }
    XoredBytes(data);
    assert bytes[..] == Xored(data);
    text := TrimEnd(bytes[..]);
  }
}
