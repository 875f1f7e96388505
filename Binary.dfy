/** CyberChef's binary-text codec (src/core/lib/Binary.mjs).

    `ToBinary` writes a list of byte values (or one number) as base-2 digit
    groups, each left-padded with '0' to at least `padding` characters and
    separated by a delimiter; `FromBinary` deletes the delimiter from a
    string, cuts what is left into pieces of `byteLen` characters and reads
    each piece as a base-2 number.

    The delimiter is the literal text the source looks up by name. A
    JavaScript number given as `byteLen` is a `real` here, so that the
    "not an integer" error can be stated.
 */
module Binary {
  import opened Base2
  import opened Text

  /** What the encoder may be given here: an array of values, a single
      number, or a value that is neither (which encodes to the empty
      string). Strings and other array-likes, and negative or non-integer
      numbers, are not among these. */
  datatype Data = Arr(values: seq<nat>) | Num(n: nat) | Other

  datatype Result<T> = Success(value: T) | Failure(error: string)

  /** What `parseInt(chunk, 2)` yields for one piece: a number, or, for a
      piece that does not start with a binary digit, a value this model does
      not determine (NaN, or whatever JavaScript reads after leading white
      space or a sign). */
  datatype Parsed = Int(n: nat) | Unparsed

  const ByteLenError: string := "Byte length must be a positive integer"

  /** JavaScript's `String.prototype.padStart(width, "0")`: never cuts `s`,
      and adds characters in front of it only up to `width` (`GroupShape`
      states what they are). */
  function PadStart(s: string, width: int): (r: string)
    ensures |r| == Max(width, |s|)
  {
    if width <= |s| then s else Zeros(width - |s|) + s
  }

  /** One encoded value: `x.toString(2).padStart(padding, "0")`. */
  function Group(x: nat, padding: int): (g: string) {
    PadStart(ToBase2(x), padding)
  }

  function Groups(xs: seq<nat>, padding: int): (gs: seq<string>)
    ensures |gs| == |xs|
    ensures forall k :: 0 <= k < |xs| ==> gs[k] == Group(xs[k], padding)
  {
    seq(|xs|, k requires 0 <= k < |xs| => Group(xs[k], padding))
  }

  /** The string `toBinary(data, delim, padding)` returns. */
  function Encoding(data: Data, delim: string, padding: int): (r: string) {
    if data.Arr? && |data.values| > 0 then Join(Groups(data.values, padding), delim)
    else if data.Num? then Group(data.n, padding)
    else ""
  }

  /** The longest prefix of `s` made of binary digits. */
  function BitPrefix(s: string): (r: string)
    ensures IsBits(r) && |r| <= |s|
  {
    if s == [] || !IsBit(s[0]) then []
    else [s[0]] + BitPrefix(s[1..])
  }

  /** `parseInt(chunk, 2)`: the digits up to the first character that is not
      a binary digit, when there is at least one. */
  function ParseBinary(chunk: string): (p: Parsed) {
    if |chunk| > 0 && IsBit(chunk[0]) then Int(FromBase2(BitPrefix(chunk))) else Unparsed
  }

  /** One `parseInt` per piece, in order. */
  function ParseAll(chunks: seq<string>): (ps: seq<Parsed>)
    ensures |ps| == |chunks|
  {
    if chunks == [] then [] else [ParseBinary(chunks[0])] + ParseAll(chunks[1..])
  }

  /** Result `k` is the parse of piece `k`. */
  lemma {:induction false} ParseAllAt(chunks: seq<string>, k: nat)
    requires k < |chunks|
    ensures ParseAll(chunks)[k] == ParseBinary(chunks[k])
    decreases k
  {
    if k > 0 {
      ParseAllAt(chunks[1..], k - 1);
    }
  }

  lemma ParseAllEach(chunks: seq<string>)
    ensures forall k :: 0 <= k < |chunks| ==> ParseAll(chunks)[k] == ParseBinary(chunks[k])
  {
    forall k | 0 <= k < |chunks|
      ensures ParseAll(chunks)[k] == ParseBinary(chunks[k])
    {
      ParseAllAt(chunks, k);
    }
  }

  /** JavaScript's `Math.round`: the nearest integer, halves rounded up. */
  function Round(x: real): (r: real)
    ensures r.Floor as real == r
    ensures r - 0.5 <= x < r + 0.5
  {
    (x + 0.5).Floor as real
  }

  /** The outcome of `fromBinary(data, delim, byteLen)`. */
  function Decoding(data: string, delim: string, byteLen: real): (r: Result<seq<Parsed>>) {
    if byteLen < 1.0 || Round(byteLen) != byteLen then Failure(ByteLenError)
    else
      var n: nat := byteLen.Floor;
      Success(ParseAll(Chunks(RemoveAll(data, delim), n)))
  }

  /** The values wrapped as parse results, for stating the round trip. */
  function Ints(xs: seq<nat>): (ps: seq<Parsed>)
    ensures |ps| == |xs|
    ensures forall k :: 0 <= k < |xs| ==> ps[k] == Int(xs[k])
  {
    seq(|xs|, k requires 0 <= k < |xs| => Int(xs[k]))
  }

  /** `toBinary`: appends each padded group and the delimiter, then slices
      the final delimiter off. */
  method ToBinary(data: Data, delim: string, padding: int) returns (r: string)
    ensures r == Encoding(data, delim, padding)
  {
    var output := "";
    if data.Arr? && |data.values| > 0 {
      var xs := data.values;
      var gs := Groups(xs, padding);
      for i := 0 to |xs|
        invariant i == 0 ==> output == ""
        invariant i > 0 ==> output == Join(gs[..i], delim) + delim
      {
        if i > 0 {
          JoinSnoc(gs[..i], gs[i], delim);
          assert gs[..i + 1] == gs[..i] + [gs[i]];
        } else {
          assert gs[..1] == [gs[0]];
        }
        output := output + Group(xs[i], padding) + delim;
      }
      assert gs[..|xs|] == gs;
    } else if data.Num? {
      return Group(data.n, padding);
    } else {
      return "";
    }
    if |delim| > 0 {
      r := output[..|output| - |delim|];
    } else {
      r := output;
    }
  }

  /** `fromBinary`: checks `byteLen`, deletes the delimiter, then reads the
      pieces. */
  method FromBinary(data: string, delim: string, byteLen: real) returns (r: Result<seq<Parsed>>)
    ensures r == Decoding(data, delim, byteLen)
  {
    if byteLen < 1.0 || Round(byteLen) != byteLen {
      return Failure(ByteLenError);
    }
    var n: nat := byteLen.Floor;
    var s := RemoveAll(data, delim);
    var output := ReadPieces(s, n);
    return Success(output);
  }

  /** The loop of `fromBinary`: `i` steps by `byteLen` from 0, and each step
      appends the parse of `data.substr(i, byteLen)`. */
  method ReadPieces(s: string, n: nat) returns (output: seq<Parsed>)
    requires n >= 1
    ensures output == ParseAll(Chunks(s, n))
  {
    output := [];
    var i: nat := 0;
    UnreadStart(s, n);
    while i < |s|
      invariant output + Unread(s, n, i) == ParseAll(Chunks(s, n))
    {
      // at most n characters from offset i
      var piece := s[i .. Min(i + n, |s|)];
      ReadStep(s, n, i, output);
      output := output + [ParseBinary(piece)];
      i := i + n;
    }
    UnreadEnd(s, n, i, output);
  }

  /** The parses of the pieces from offset `i` on, which the loop has not
      read yet. */
  function Unread(s: string, n: nat, i: nat): seq<Parsed>
    requires n >= 1
  {
    ParseAll(Chunks(s[Min(i, |s|)..], n))
  }

  lemma UnreadStart(s: string, n: nat)
    requires n >= 1
    ensures [] + Unread(s, n, 0) == ParseAll(Chunks(s, n))
  {
    assert s[Min(0, |s|)..] == s;
  }

  lemma UnreadEnd(s: string, n: nat, i: nat, output: seq<Parsed>)
    requires n >= 1 && i >= |s|
    requires output + Unread(s, n, i) == ParseAll(Chunks(s, n))
    ensures output == ParseAll(Chunks(s, n))
  {
    assert s[Min(i, |s|)..] == [];
    assert ParseAll([]) == [];
    assert output + [] == output;
  }

  /** One step of the loop: reading the at most `n` characters from offset
      `i` moves their parse from the unread part to the output. */
  lemma ReadStep(s: string, n: nat, i: nat, output: seq<Parsed>)
    requires n >= 1 && i < |s|
    requires output + Unread(s, n, i) == ParseAll(Chunks(s, n))
    ensures (output + [ParseBinary(s[i .. Min(i + n, |s|)])]) + Unread(s, n, i + n) == ParseAll(Chunks(s, n))
  {
    var j := Min(i + n, |s|);
    var p := ParseBinary(s[i .. j]);
    ChunksFrom(s, n, i);
    assert Unread(s, n, i) == [p] + Unread(s, n, i + n);
    assert (output + [p]) + Unread(s, n, i + n) == output + ([p] + Unread(s, n, i + n));
  }

  // ---------------------------------------------------------------------
  // Properties of the encoder

  /** A group is '0's followed by the value's base-2 digits; it is
      `max(padding, |digits|)` characters long (padding never truncates) and
      reads back as the value. */
  lemma GroupShape(x: nat, padding: int)
    ensures Group(x, padding) == Zeros(Max(padding - |ToBase2(x)|, 0)) + ToBase2(x)
    ensures |Group(x, padding)| == Max(padding, |ToBase2(x)|)
    ensures IsBits(Group(x, padding))
    ensures FromBase2(Group(x, padding)) == x
  {
    var t := ToBase2(x);
    FromToBase2(x);
    if padding <= |t| {
      assert Group(x, padding) == t;
      assert Zeros(0) + t == t;
    } else {
      assert Group(x, padding) == Zeros(padding - |t|) + t;
      LeadingZeros(padding - |t|, t);
    }
  }

  /** For a padding of at least one digit, a group is exactly `padding`
      characters wide precisely when the value is below 2^padding. */
  lemma GroupWidth(x: nat, padding: nat)
    requires padding >= 1
    ensures |Group(x, padding)| == padding <==> x < Pow2(padding)
  {
    GroupShape(x, padding);
    ToBase2Fits(x, padding);
  }

  /** With the default padding, every byte value encodes as exactly eight
      digits. */
  lemma ByteGroupWidth(b: nat)
    requires b <= 255
    ensures |Group(b, 8)| == 8
  {
    assert Pow2(8) == 256 by {
      assert Pow2(4) == 16;
    }
    GroupWidth(b, 8);
  }

  /** A non-empty array encodes as its groups with the delimiter between
      them: `|values| - 1` delimiters, none after the last group. With the
      empty delimiter the groups are simply concatenated. */
  lemma EncodingArray(xs: seq<nat>, delim: string, padding: int)
    requires |xs| > 0
    ensures var r := Encoding(Arr(xs), delim, padding);
            |r| == |Concat(Groups(xs, padding))| + (|xs| - 1) * |delim| &&
            (|xs| > 1 ==> r == Encoding(Arr(xs[..|xs| - 1]), delim, padding) + delim + Group(xs[|xs| - 1], padding)) &&
            (delim == [] ==> r == Concat(Groups(xs, padding)))
  {
    var gs := Groups(xs, padding);
    JoinLength(gs, delim);
    JoinEmptyDelimiter(gs);
    if |xs| > 1 {
      var init := xs[..|xs| - 1];
      assert gs == Groups(init, padding) + [gs[|xs| - 1]];
      JoinSnoc(Groups(init, padding), gs[|xs| - 1], delim);
    }
  }

  /** A single number encodes as its padded digits alone: binary digits
      only, so no delimiter, and they read back as the number. */
  lemma EncodingNumber(n: nat, delim: string, padding: int)
    ensures Encoding(Num(n), delim, padding) == Group(n, padding)
    ensures IsBits(Encoding(Num(n), delim, padding))
    ensures FromBase2(Encoding(Num(n), delim, padding)) == n
  {
    GroupShape(n, padding);
  }

  /** An empty array, and anything that is neither an array nor a number,
      encodes as the empty string. */
  lemma EncodingEmpty(delim: string, padding: int)
    ensures Encoding(Arr([]), delim, padding) == ""
    ensures Encoding(Other, delim, padding) == ""
  {
  }

  // ---------------------------------------------------------------------
  // Properties of the decoder

  /** `Math.round(b) !== b` holds exactly for a `b` that is not an integer. */
  lemma RoundIsIdentityOnIntegers(b: real)
    ensures Round(b) == b <==> b.Floor as real == b
  {
    var f := b.Floor;
    if f as real == b {
      assert f as real <= b + 0.5 < (f + 1) as real;
      assert (b + 0.5).Floor == f;
    }
  }

  /** Decoding fails, with the source's message and no output, exactly when
      `byteLen` is below 1 or not an integer. */
  lemma DecodingFails(data: string, delim: string, byteLen: real)
    ensures Decoding(data, delim, byteLen).Failure? <==>
            byteLen < 1.0 || byteLen.Floor as real != byteLen
    ensures Decoding(data, delim, byteLen).Failure? ==>
            Decoding(data, delim, byteLen) == Failure(ByteLenError)
  {
    RoundIsIdentityOnIntegers(byteLen);
  }

  /** A positive integer `byteLen` passes the check. */
  lemma DecodingSucceeds(data: string, delim: string, n: nat)
    requires n >= 1
    ensures Decoding(data, delim, n as real) == Success(ParseAll(Chunks(RemoveAll(data, delim), n)))
  {
    RoundIsIdentityOnIntegers(n as real);
    assert (n as real).Floor == n;
  }

  /** After the delimiter is deleted, the decoder reads `ceil(|s| / n)`
      pieces, and value `k` is the parse of `s[k * n .. min((k + 1) * n, |s|)]`. */
  lemma DecodingPieces(data: string, delim: string, n: nat)
    requires n >= 1
    ensures var s := RemoveAll(data, delim);
            var r := Decoding(data, delim, n as real);
            r.Success? &&
            |r.value| == (|s| + n - 1) / n &&
            forall k :: 0 <= k < |r.value| ==>
              k * n < |s| && r.value[k] == ParseBinary(s[k * n .. Min(k * n + n, |s|)])
  {
    DecodingSucceeds(data, delim, n);
    ParsedPieces(RemoveAll(data, delim), n);
  }

  /** The parses of the pieces of `s`: `ceil(|s| / n)` of them, and parse
      `k` reads `s[k * n .. min((k + 1) * n, |s|)]`. */
  lemma ParsedPieces(s: string, n: nat)
    requires n >= 1
    ensures var ps := ParseAll(Chunks(s, n));
            |ps| == (|s| + n - 1) / n &&
            forall k :: 0 <= k < |ps| ==>
              k * n < |s| && ps[k] == ParseBinary(s[k * n .. Min(k * n + n, |s|)])
  {
    ChunksCount(s, n);
    forall k | 0 <= k < |Chunks(s, n)|
      ensures k * n < |s| && ParseAll(Chunks(s, n))[k] == ParseBinary(s[k * n .. Min(k * n + n, |s|)])
    {
      ChunkAt(s, n, k);
      ParseAllAt(Chunks(s, n), k);
    }
  }

  /** `BitPrefix(s)` is a prefix of `s`, and the character after it, if
      any, is not a binary digit. */
  lemma {:induction false} BitPrefixIsLongest(s: string)
    ensures BitPrefix(s) == s[..|BitPrefix(s)|]
    ensures |BitPrefix(s)| < |s| ==> !IsBit(s[|BitPrefix(s)|])
  {
    if s != [] && IsBit(s[0]) {
      BitPrefixIsLongest(s[1..]);
    }
  }

  /** A string of binary digits is its own longest binary prefix. */
  lemma {:induction false} BitPrefixOfBits(s: string)
    requires IsBits(s)
    ensures BitPrefix(s) == s
  {
    if s != [] {
      BitPrefixOfBits(s[1..]);
      assert [s[0]] + s[1..] == s;
    }
  }

  /** A piece made only of binary digits parses as its full base-2 value. */
  lemma ParseBits(chunk: string)
    requires |chunk| > 0 && IsBits(chunk)
    ensures ParseBinary(chunk) == Int(FromBase2(chunk))
  {
    BitPrefixOfBits(chunk);
  }

  /** The pieces of a string of binary digits are non-empty strings of
      binary digits. */
  lemma {:induction false} ChunksBits(s: string, n: nat)
    requires n > 0 && IsBits(s)
    ensures forall k :: 0 <= k < |Chunks(s, n)| ==> |Chunks(s, n)[k]| > 0 && IsBits(Chunks(s, n)[k])
    decreases |s|
  {
    if |s| > n {
      ChunksBits(s[n..], n);
      assert IsBits(s[..n]);
    }
  }

  /** When only binary digits remain after the delimiter is deleted, every
      piece is read in full as a base-2 number and none is `Unparsed`. */
  lemma DecodingBits(data: string, delim: string, n: nat)
    requires n >= 1
    requires IsBits(RemoveAll(data, delim))
    ensures var cs := Chunks(RemoveAll(data, delim), n);
            var r := Decoding(data, delim, n as real);
            r.Success? && |r.value| == |cs| &&
            forall k :: 0 <= k < |cs| ==> IsBits(cs[k]) && r.value[k] == Int(FromBase2(cs[k]))
  {
    var s := RemoveAll(data, delim);
    var cs := Chunks(s, n);
    DecodingSucceeds(data, delim, n);
    ChunksBits(s, n);
    forall k | 0 <= k < |cs|
      ensures ParseBinary(cs[k]) == Int(FromBase2(cs[k]))
    {
      ParseBits(cs[k]);
    }
    ParseAllEach(cs);
  }

  /** Each encoded group parses back to its value. */
  lemma ParseGroup(x: nat, padding: int)
    ensures ParseBinary(Group(x, padding)) == Int(x)
  {
    GroupShape(x, padding);
    ParseBits(Group(x, padding));
  }

  /** Every decoded number fits in `byteLen` bits. */
  lemma DecodingBound(data: string, delim: string, n: nat)
    requires n >= 1
    ensures var r := Decoding(data, delim, n as real);
            r.Success? &&
            forall k :: 0 <= k < |r.value| && r.value[k].Int? ==> r.value[k].n < Pow2(n)
  {
    var s := RemoveAll(data, delim);
    RoundIsIdentityOnIntegers(n as real);
    var cs := Chunks(s, n);
    forall k | 0 <= k < |cs| && ParseBinary(cs[k]).Int?
      ensures ParseBinary(cs[k]).n < Pow2(n)
    {
      ChunkAt(s, n, k);
      Pow2Monotone(|BitPrefix(cs[k])|, n);
    }
    ParseAllEach(cs);
  }

  // ---------------------------------------------------------------------
  // Round trip

  /** Decoding an encoding with the same width gives the values back, when
      every value fits in `width` bits and the delimiter is empty or does
      not start with a binary digit. */
  lemma {:induction false} RoundTrip(xs: seq<nat>, delim: string, width: nat)
    requires width >= 1
    requires forall k :: 0 <= k < |xs| ==> xs[k] < Pow2(width)
    requires delim == [] || !IsBit(delim[0])
    ensures Decoding(Encoding(Arr(xs), delim, width), delim, width as real) == Success(Ints(xs))
  {
    RoundIsIdentityOnIntegers(width as real);
    assert (width as real).Floor == width;
    var gs := Groups(xs, width);
    forall k | 0 <= k < |xs|
      ensures |gs[k]| == width && IsBits(gs[k]) && ParseBinary(gs[k]) == Int(xs[k])
    {
      GroupShape(xs[k], width);
      GroupWidth(xs[k], width);
      ParseGroup(xs[k], width);
    }
    var s := RemoveAll(Encoding(Arr(xs), delim, width), delim);
    if |xs| == 0 {
      assert s == [];
    } else {
      assert Encoding(Arr(xs), delim, width) == Join(gs, delim);
      if delim == [] {
        JoinEmptyDelimiter(gs);
      } else {
        forall i, j | 0 <= i < |gs| && 0 <= j < |gs[i]|
          ensures gs[i][j] != delim[0]
        {
          assert IsBit(gs[i][j]);
        }
        RemoveAllJoin(gs, delim);
      }
      assert s == Concat(gs);
    }
    ChunksConcat(gs, width);
    assert Chunks(s, width) == gs;
    ParseAllEach(gs);
    assert ParseAll(gs) == Ints(xs);
  }

  /** The codec's default use: eight-digit groups of byte values, with a
      delimiter that holds no binary digit (or no delimiter at all). */
  lemma ByteRoundTrip(bytes: seq<nat>, delim: string)
    requires forall k :: 0 <= k < |bytes| ==> bytes[k] <= 255
    requires forall j :: 0 <= j < |delim| ==> !IsBit(delim[j])
    ensures Decoding(Encoding(Arr(bytes), delim, 8), delim, 8.0) == Success(Ints(bytes))
  {
    assert Pow2(8) == 256 by {
      assert Pow2(4) == 16;
    }
    RoundTrip(bytes, delim, 8);
  }
}
