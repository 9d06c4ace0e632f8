/** Little-endian integers and the byte image of an ORB. */
module LittleEndian {
  import opened Words
  import opened Orbs
  import opened Wrappers

  /** `to_le_bytes` of an `n`-byte integer. */
  function LeBytes(v: nat, n: nat): (bytes: seq<Byte>)
    ensures |bytes| == n
  {
    if n == 0 then [] else [v % 256] + LeBytes(v / 256, n - 1)
  }

  /** `from_le_bytes`. */
  function LeValue(bytes: seq<Byte>): nat {
    if bytes == [] then 0 else bytes[0] + 256 * LeValue(bytes[1..])
  }

  lemma {:induction false} LeValueBound(bytes: seq<Byte>)
    ensures LeValue(bytes) < Pow2(8 * |bytes|)
  {
    if bytes != [] {
      LeValueBound(bytes[1..]);
      Pow2Sum(8 * |bytes[1..]|, 8);
      assert Pow2(8) == 256;
    }
  }

  lemma LastDigit(b: Byte, v: nat)
    ensures (b + 256 * v) % 256 == b && (b + 256 * v) / 256 == v
  {
  }

  lemma {:induction false} BytesOfValue(bytes: seq<Byte>)
    ensures LeBytes(LeValue(bytes), |bytes|) == bytes
  {
    if bytes != [] {
      BytesOfValue(bytes[1..]);
      LastDigit(bytes[0], LeValue(bytes[1..]));
      assert bytes == [bytes[0]] + bytes[1..];
    }
  }

  lemma {:induction false} ValueOfBytes(v: nat, n: nat)
    requires v < Pow2(8 * n)
    ensures LeValue(LeBytes(v, n)) == v
  {
    if n != 0 {
      Pow2Sum(8 * (n - 1), 8);
      assert Pow2(8) == 256;
      ValueOfBytes(v / 256, n - 1);
      assert LeBytes(v, n)[1..] == LeBytes(v / 256, n - 1);
    }
  }

  function LeWord(bytes: seq<Byte>): Word
    requires |bytes| == 8
  {
    LeValueBound(bytes);
    Pow2Of64();
    LeValue(bytes)
  }

  lemma {:induction false} WordRoundTrip(w: Word)
    ensures LeWord(LeBytes(w, 8)) == w
  {
    Pow2Of64();
    ValueOfBytes(w, 8);
  }

  // ---- the 128-byte image of an ORB ----

  function WordsImage(words: seq<Word>): (bytes: seq<Byte>)
    ensures |bytes| == 8 * |words|
  {
    if words == [] then []
    else
      var n := |words| - 1;
      WordsImage(words[..n]) + LeBytes(words[n], 8)
  }

  function WordsOf(bytes: seq<Byte>, n: nat): (words: seq<Word>)
    requires |bytes| == 8 * n
    ensures |words| == n
  {
    if n == 0 then [] else WordsOf(bytes[..8 * (n - 1)], n - 1) + [LeWord(bytes[8 * (n - 1)..])]
  }

  lemma {:induction false} WordsOfImage(words: seq<Word>)
    ensures WordsOf(WordsImage(words), |words|) == words
  {
    if words != [] {
      var n := |words| - 1;
      WordsOfImage(words[..n]);
      WordRoundTrip(words[n]);
      assert WordsImage(words)[..8 * n] == WordsImage(words[..n]);
      assert WordsImage(words)[8 * n..] == LeBytes(words[n], 8);
    }
  }

  lemma {:induction false} ImageOfWords(bytes: seq<Byte>, n: nat)
    requires |bytes| == 8 * n
    ensures WordsImage(WordsOf(bytes, n)) == bytes
  {
    if n != 0 {
      var front, last := bytes[..8 * (n - 1)], bytes[8 * (n - 1)..];
      ImageOfWords(front, n - 1);
      BytesOfValue(last);
      assert WordsOf(bytes, n)[..n - 1] == WordsOf(front, n - 1);
      assert bytes == front + last;
    }
  }

  /** `Orb1024::to_le_bytes`: each word is copied into its eight-byte slot. */
  method ToLeBytes(o: Orb) returns (bytes: seq<Byte>)
    ensures bytes == WordsImage(o)
  {
    var out := new Byte[ORB_BYTES](_ => 0);
    for i := 0 to ORB_WORDS
      invariant out[..8 * i] == WordsImage(o[..i])
    {
      var word := LeBytes(o[i], 8);
      forall k | 0 <= k < 8 {
        out[8 * i + k] := word[k];
      }
      assert out[..8 * (i + 1)] == out[..8 * i] + word;
      assert o[..i + 1][..i] == o[..i];
    }
    assert out[..] == out[..8 * ORB_WORDS] && o[..ORB_WORDS] == o;
    bytes := out[..];
  }

  /** `Orb1024::from_le_bytes`. */
  method FromLeBytes(bytes: seq<Byte>) returns (r: Result<Orb, OrbError>)
    ensures r == if |bytes| != ORB_BYTES then Err(WrongLength(ORB_BYTES, |bytes|)) else Ok(WordsOf(bytes, ORB_WORDS))
  {
    if |bytes| != ORB_BYTES {
      return Err(WrongLength(ORB_BYTES, |bytes|));
    }
    var words := new Word[ORB_WORDS](_ => 0);
    for i := 0 to ORB_WORDS
      invariant words[..i] == WordsOf(bytes[..8 * i], i)
    {
      words[i] := LeWord(bytes[8 * i..8 * i + 8]);
      var prefix := bytes[..8 * (i + 1)];
      assert prefix[..8 * i] == bytes[..8 * i] && prefix[8 * i..] == bytes[8 * i..8 * i + 8];
      assert words[..i + 1] == words[..i] + [words[i]];
    }
    assert words[..] == words[..ORB_WORDS] && bytes[..ORB_BYTES] == bytes;
    return Ok(words[..]);
  }
}
