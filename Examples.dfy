/** Worked examples of the codec on concrete inputs. */
module Examples {
  import opened Base2
  import opened Text
  import opened Binary

  lemma ExampleDigits()
    ensures ToBase2(7) == "111"
    ensures ToBase2(10) == "1010"
    ensures ToBase2(20) == "10100"
    ensures ToBase2(30) == "11110"
  {
    assert ToBase2(2) == "10";
    assert ToBase2(5) == "101";
    assert ToBase2(3) == "11";
    assert ToBase2(15) == "1111";
  }

  lemma ExampleGroups()
    ensures Group(10, 8) == "00001010"
    ensures Group(20, 8) == "00010100"
    ensures Group(30, 8) == "00011110"
    ensures Group(7, 6) == "000111"
  {
    ExampleDigits();
    assert Zeros(4) == "0000";
    assert Zeros(3) == "000";
  }

  /** [10, 20, 30] with a space delimiter. (The source's doc comment shows
      "00010000 00100000 00110000", which is the encoding of [16, 32, 48].) */
  lemma ExampleEncode()
    ensures Encoding(Arr([10, 20, 30]), " ", 8) == "00001010 00010100 00011110"
  {
    var gs := Groups([10, 20, 30], 8);
    assert gs == ["00001010", "00010100", "00011110"] by {
      ExampleGroups();
      assert gs[0] == Group(10, 8) && gs[1] == Group(20, 8) && gs[2] == Group(30, 8);
    }
    ExampleJoin();
  }

  lemma ExampleJoin()
    ensures Join(["00001010", "00010100", "00011110"], " ") == "00001010 00010100 00011110"
  {
  }

  /** The string above decodes to [10, 20, 30]. */
  lemma ExampleDecode()
    ensures Decoding("00001010 00010100 00011110", " ", 8.0) == Success([Int(10), Int(20), Int(30)])
  {
    ExampleEncode();
    ByteRoundTrip([10, 20, 30], " ");
    assert Ints([10, 20, 30]) == [Int(10), Int(20), Int(30)];
  }

  lemma RemainderCleaned()
    ensures RemoveAll("0000101000010100000111", " ") == "0000101000010100000111"
  {
    var s := "0000101000010100000111";
    RemoveAllSkips(s, [], " ");
    assert s + [] == s;
  }

  lemma RemainderPieces()
    ensures Chunks("0000101000010100000111", 8) == ["00001010", "00010100", "000111"]
  {
    var s := "0000101000010100000111";
    assert s[..8] == "00001010";
    assert s[8..] == "00010100000111";
    assert s[8..][..8] == "00010100";
    assert s[8..][8..] == "000111";
  }

  lemma RemainderValues(a: nat, b: nat, c: nat, p: int, q: int)
    ensures ParseAll([Group(a, p), Group(b, p), Group(c, q)]) == [Int(a), Int(b), Int(c)]
  {
    ParseGroup(a, p);
    ParseGroup(b, p);
    ParseGroup(c, q);
    ParseAllEach([Group(a, p), Group(b, p), Group(c, q)]);
  }

  /** 22 digits with `byteLen` 8: three values, the last read from its six
      digits alone. */
  lemma ExampleRemainder()
    ensures Decoding("0000101000010100000111", " ", 8.0) == Success([Int(10), Int(20), Int(7)])
  {
    RemainderCleaned();
    RemainderPieces();
    ExampleGroups();
    RemainderValues(10, 20, 7, 8, 6);
    DecodingSucceeds("0000101000010100000111", " ", 8);
  }
}
