/** The repeating-key cipher of src/encrypt.c. */
module Cipher {
  import opened Bytes
  import opened Bits

  const KEY: seq<byte> := [0x12, 0x34, 0x56, 0x78]

  function KeyByte(i: nat): byte {
    KEY[i % 4]
  }

  /** The message `s` enciphered from its first byte. */
  function Crypt(s: seq<byte>): (r: seq<byte>)
    ensures |r| == |s|
    ensures forall i :: 0 <= i < |s| ==> r[i] == XorByte(s[i], KeyByte(i))
  {
    seq(|s|, i requires 0 <= i < |s| => XorByte(s[i], KeyByte(i)))
  }

  method XorEncryptDecrypt(input: array<byte>, output: array<byte>, length: nat)
    requires length <= input.Length && length <= output.Length
    modifies output
    ensures output[..] == Crypt(old(input[..length])) + old(output[length..])
  {
    for i := 0 to length
      invariant forall j :: 0 <= j < i ==> output[j] == XorByte(old(input[j]), KeyByte(j))
      invariant forall j :: i <= j < output.Length ==> output[j] == old(output[j])
      invariant forall j :: i <= j < length ==> input[j] == old(input[j])
    {
      output[i] := XorByte(input[i], KeyByte(i));
    }
  }

  /** Enciphering twice gives the message back, for every length. */
  lemma CryptInvolution(s: seq<byte>)
    ensures Crypt(Crypt(s)) == s
  {
    hide KeyByte, Xor;
    forall i | 0 <= i < |s|
      ensures Crypt(Crypt(s))[i] == s[i]
    {
      XorUndone(s[i], KeyByte(i));
    }
  }

  /** Enciphering commutes with taking any prefix. */
  lemma CryptOfPrefix(s: seq<byte>, n: nat)
    requires n <= |s|
    ensures Crypt(s)[..n] == Crypt(s[..n])
  {
    hide XorByte, KeyByte;
  }

  /** Enciphering commutes with dropping a prefix exactly as far as the key repeats there: always for
      a multiple of the key length, and for no other non-trivial drop. */
  lemma CryptOfSuffix(s: seq<byte>, n: nat)
    requires n <= |s|
    ensures Crypt(s)[n..] == Crypt(s[n..]) <==> n % 4 == 0 || n == |s|
  {
    hide XorByte, Xor;
    if n % 4 == 0 {
      forall i | 0 <= i < |s| - n
        ensures Crypt(s)[n..][i] == Crypt(s[n..])[i]
      {
        assert (n + i) % 4 == i % 4;
      }
    } else if n < |s| {
      assert KeyByte(n) != KeyByte(0);
      XorCancels(s[n], KeyByte(n), KeyByte(0));
      assert Crypt(s)[n..][0] != Crypt(s[n..])[0];
    }
  }

  lemma {:induction false} XorSymmetric(x: nat, y: nat)
    ensures Xor(x, y) == Xor(y, x)
    decreases x + y
  {
    if x != 0 || y != 0 {
      XorSymmetric(x / 2, y / 2);
    }
  }

  lemma XorCancels(x: byte, k: byte, k': byte)
    ensures XorByte(x, k) == XorByte(x, k') ==> k == k'
  {
    hide Xor;
    XorSymmetric(x, k);
    XorSymmetric(x, k');
    XorUndone(k, x);
    XorUndone(k', x);
  }

  /** A ciphertext byte is NUL exactly where the plaintext byte equals its key byte. */
  lemma CipherByteIsNul(x: byte, k: byte)
    ensures XorByte(x, k) == 0 <==> x == k
  {
    XorIsZero(x, k);
  }

  lemma CipherByteUndone(x: byte, k: byte)
    ensures XorByte(XorByte(x, k), k) == x
  {
    hide Xor;
    XorUndone(x, k);
  }
}
