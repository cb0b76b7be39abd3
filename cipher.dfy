/**
 * The cipher the sensor applies to each eight-byte report, and the key
 * material it uses: the seed "Htemp99e" with the two nibbles of each byte
 * exchanged, and the per-session magic table.
 */
module Cipher {

  import opened Bytes

  /** The seed string of the cipher. */
  const SeedText: string := "Htemp99e"

  /** The seed's bytes (it is ASCII, so one byte per character). */
  const Seed: seq<byte> := seq(8, i requires 0 <= i < 8 => SeedText[i] as byte)

  /** The magic table every connection holds: eight zero bytes. */
  const ZeroTable: seq<byte> := [0, 0, 0, 0, 0, 0, 0, 0]

  /** Input position of each output byte of the reordering step. */
  const Order: seq<nat> := [2, 4, 0, 7, 1, 6, 5, 3]

  /** Exchanges the high and low nibble of a byte; as numbers, the low
      nibble becomes the sixteens digit and the high nibble the units. */
  function NibbleSwap(b: byte): (r: byte)
    ensures r == (b % 16) * 16 + b / 16
  {
    (b << 4) | (b >> 4)
  }

  /** Swapping the nibbles twice gives back the byte. */
  lemma NibbleSwapInvolutive(b: byte)
    ensures NibbleSwap(NibbleSwap(b)) == b
  {
  }

  /** The subtraction key `get_magic_word` returns: the seed, nibble-swapped
      byte by byte. */
  function MagicWord(): (r: seq<byte>)
    ensures |r| == 8
  {
    seq(8, i requires 0 <= i < 8 => NibbleSwap(Seed[i]))
  }

  /** The concrete subtraction key, and that swapping it back gives the seed. */
  lemma MagicWordValue()
    ensures Seed == [0x48, 0x74, 0x65, 0x6D, 0x70, 0x39, 0x39, 0x65]
    ensures MagicWord() == [0x84, 0x47, 0x56, 0xD6, 0x07, 0x93, 0x93, 0x56]
    ensures forall i :: 0 <= i < 8 ==> NibbleSwap(MagicWord()[i]) == Seed[i]
  {
  }

  /** `get_magic_word`: walks the seed's bytes with a running index and
      stores each one, nibble-swapped, into a zeroed eight-byte buffer. */
  method GetMagicWord() returns (list: seq<byte>)
    ensures |list| == 8
    ensures forall i :: 0 <= i < 8 ==> list[i] == NibbleSwap(Seed[i])
  {
    var a := new byte[8](_ => 0);
    var i := 0;
    while i < |Seed|
      invariant 0 <= i <= |Seed| == a.Length
      invariant forall k :: 0 <= k < i ==> a[k] == NibbleSwap(Seed[k])
    {
      var b := Seed[i];
      a[i] := (b << 4) | (b >> 4);
      i := i + 1;
    }
    list := a[..];
  }

  /** The reordering step: output byte `i` is input byte `Order[i]`. */
  function Permute(data: seq<byte>): (r: seq<byte>)
    requires |data| == 8
    ensures |r| == 8
  {
    [data[2], data[4], data[0], data[7], data[1], data[6], data[5], data[3]]
  }

  /** The reordering follows `Order`. */
  lemma PermuteFollowsOrder(data: seq<byte>)
    requires |data| == 8
    ensures forall i :: 0 <= i < 8 ==> Permute(data)[i] == data[Order[i]]
  {
  }

  /** The reordering is its own inverse. */
  lemma PermuteInvolutive(data: seq<byte>)
    requires |data| == 8
    ensures Permute(Permute(data)) == data
  {
  }

  /** `(x >> 3) | (x << 61)` on a `u64`. */
  function Rotr3(x: word): (r: word)
  {
    (x >> 3) | (x << 61)
  }

  /** The inverse shift pair, `(x << 3) | (x >> 61)`. */
  function Rotl3(x: word): (r: word)
  {
    (x << 3) | (x >> 61)
  }

  /** `Rotr3` is a cyclic rotation right by three bits over the whole word
      (no bit is lost), and `Rotl3` undoes it. */
  lemma RotateProperties(x: word)
    ensures Rotr3(x) == x.RotateRight(3)
    ensures Rotl3(x) == x.RotateLeft(3)
    ensures Rotr3(Rotl3(x)) == x && Rotl3(Rotr3(x)) == x
  {
  }

  /** Byte-wise wrapping subtraction of a key. */
  function SubKey(s: seq<byte>, key: seq<byte>): (r: seq<byte>)
    requires |s| == 8 && |key| == 8
    ensures |r| == 8
  {
    seq(8, i requires 0 <= i < 8 => s[i] - key[i])
  }

  /** Byte-wise wrapping addition of a key. */
  function AddKey(s: seq<byte>, key: seq<byte>): (r: seq<byte>)
    requires |s| == 8 && |key| == 8
    ensures |r| == 8
  {
    seq(8, i requires 0 <= i < 8 => s[i] + key[i])
  }

  /** Subtracting a key undoes adding it. */
  lemma SubKeyAddKey(s: seq<byte>, key: seq<byte>)
    requires |s| == 8 && |key| == 8
    ensures SubKey(AddKey(s, key), key) == s
  {
    forall i | 0 <= i < 8
      ensures SubKey(AddKey(s, key), key)[i] == s[i]
    {
      WrappingInverse(s[i], key[i]);
    }
  }

  /** Adding a key undoes subtracting it. */
  lemma AddKeySubKey(s: seq<byte>, key: seq<byte>)
    requires |s| == 8 && |key| == 8
    ensures AddKey(SubKey(s, key), key) == s
  {
    forall i | 0 <= i < 8
      ensures AddKey(SubKey(s, key), key)[i] == s[i]
    {
      WrappingInverse(s[i], key[i]);
    }
  }

  /** Wrapping subtraction undoes wrapping addition, and the other way round. */
  lemma WrappingInverse(a: byte, k: byte)
    ensures (a + k) - k == a && (a - k) + k == a
  {
  }

  /** What `decrypt` computes for a connection with the given bypass flag
      and magic table. */
  function Decipher(bypass: bool, table: seq<byte>, data: seq<byte>): (r: seq<byte>)
    requires |table| == 8 && |data| == 8
    ensures |r| == 8
    ensures bypass ==> r == data
  {
    if bypass then data
    else SubKey(BytesOf(Rotr3(ListToU64(Permute(data)) ^ ListToU64(table))), MagicWord())
  }

  /** The sensor's side of the cipher, the inverse of `Decipher`: add the
      key, rotate left, XOR the table, reorder. */
  function Encipher(bypass: bool, table: seq<byte>, frame: seq<byte>): (r: seq<byte>)
    requires |table| == 8 && |frame| == 8
    ensures |r| == 8
    ensures bypass ==> r == frame
  {
    if bypass then frame
    else Permute(BytesOf(Rotl3(ListToU64(AddKey(frame, MagicWord()))) ^ ListToU64(table)))
  }

  /** Deciphering an enciphered frame gives back the frame. */
  lemma DecipherEncipher(bypass: bool, table: seq<byte>, frame: seq<byte>)
    requires |table| == 8 && |frame| == 8
    ensures Decipher(bypass, table, Encipher(bypass, table, frame)) == frame
  {
    if !bypass {
      var keyed := AddKey(frame, MagicWord());
      UnpermuteSent(table, frame);
      DecipherRotated(table, Encipher(bypass, table, frame), ListToU64(keyed));
      BytesOfListToU64(keyed);
      SubKeyAddKey(frame, MagicWord());
    }
  }

  /** A report whose reordered word is `Rotl3(x)` XOR the table deciphers
      to the bytes of `x` minus the key. */
  lemma DecipherRotated(table: seq<byte>, data: seq<byte>, x: word)
    requires |table| == 8 && |data| == 8
    requires ListToU64(Permute(data)) == Rotl3(x) ^ ListToU64(table)
    ensures Decipher(false, table, data) == SubKey(BytesOf(x), MagicWord())
  {
    XorRotateCancel(x, ListToU64(table));
  }

  /** Undoing the final reordering of `Encipher` recovers the rotated word. */
  lemma UnpermuteSent(table: seq<byte>, frame: seq<byte>)
    requires |table| == 8 && |frame| == 8
    ensures ListToU64(Permute(Encipher(false, table, frame)))
         == Rotl3(ListToU64(AddKey(frame, MagicWord()))) ^ ListToU64(table)
  {
    var y := Rotl3(ListToU64(AddKey(frame, MagicWord()))) ^ ListToU64(table);
    PermuteInvolutive(BytesOf(y));
    PackBytesOf(y);
  }

  lemma XorRotateCancel(x: word, t: word)
    ensures Rotr3((Rotl3(x) ^ t) ^ t) == x
  {
    RotateProperties(x);
  }

  /** Enciphering a deciphered report gives back the report: every report
      has exactly one plain frame. */
  lemma EncipherDecipher(bypass: bool, table: seq<byte>, data: seq<byte>)
    requires |table| == 8 && |data| == 8
    ensures Encipher(bypass, table, Decipher(bypass, table, data)) == data
  {
    if !bypass {
      DecipherAsWord(table, data);
      EncipherRotated(table, Decipher(false, table, data), ListToU64(Permute(data)) ^ ListToU64(table));
      XorCancel(ListToU64(Permute(data)), ListToU64(table));
      BytesOfListToU64(Permute(data));
      PermuteInvolutive(data);
    }
  }

  /** Adding the key back to a deciphered report gives the word it came
      from, rotated right. */
  lemma DecipherAsWord(table: seq<byte>, data: seq<byte>)
    requires |table| == 8 && |data| == 8
    ensures ListToU64(AddKey(Decipher(false, table, data), MagicWord()))
         == Rotr3(ListToU64(Permute(data)) ^ ListToU64(table))
  {
    var w := Rotr3(ListToU64(Permute(data)) ^ ListToU64(table));
    AddKeySubKey(BytesOf(w), MagicWord());
    PackBytesOf(w);
  }

  /** A frame whose keyed word is `Rotr3(w)` enciphers to the reordered
      bytes of `w` XOR the table. */
  lemma EncipherRotated(table: seq<byte>, frame: seq<byte>, w: word)
    requires |table| == 8 && |frame| == 8
    requires ListToU64(AddKey(frame, MagicWord())) == Rotr3(w)
    ensures Encipher(false, table, frame) == Permute(BytesOf(w ^ ListToU64(table)))
  {
    RotateProperties(w);
  }

  lemma XorCancel(x: word, t: word)
    ensures (x ^ t) ^ t == x
  {
  }

  /** The magic table a connection holds is all zeros, so the XOR step of
      `decrypt` changes nothing: deciphering is reorder, rotate, split and
      subtract. */
  lemma ZeroTableXorIsIdentity(data: seq<byte>)
    requires |data| == 8
    ensures ListToU64(ZeroTable) == 0
    ensures Decipher(false, ZeroTable, data)
         == SubKey(BytesOf(Rotr3(ListToU64(Permute(data)))), MagicWord())
  {
  }
}
