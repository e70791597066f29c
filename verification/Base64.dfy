/** The base64 encoder of the standard library, against section 4 of RFC 4648, and the daemon's size computation. */
module Base64 {
  import opened Common

  const INT_MAX: int := 0x7FFF_FFFF

  // ---- the encoding ----

  type sextet = v: int | 0 <= v < 64

  /** The alphabet of table 1 in RFC 4648. */
  function Letter(v: sextet): (c: char) {
    if v < 26 then 'A' + v as char
    else if v < 52 then 'a' + (v - 26) as char
    else if v < 62 then '0' + (v - 52) as char
    else if v == 62 then '+' else '/'
  }

  function Value(c: char): (r: Option<sextet>) {
    if 'A' <= c <= 'Z' then Some(c as int - 'A' as int)
    else if 'a' <= c <= 'z' then Some(c as int - 'a' as int + 26)
    else if '0' <= c <= '9' then Some(c as int - '0' as int + 52)
    else if c == '+' then Some(62)
    else if c == '/' then Some(63)
    else None
  }

  lemma ValueOfLetter(v: sextet)
    ensures Value(Letter(v)) == Some(v) && Letter(v) != '='
  {
  }

  /** Twenty-four bits as four letters, most significant first. */
  function Group(bits: nat): (s: string)
    requires bits < 0x100_0000
    ensures |s| == 4
  {
    [Letter(bits / 0x4_0000), Letter(bits / 0x1000 % 64), Letter(bits / 64 % 64), Letter(bits % 64)]
  }

  function Bits(a: byte, b: byte, c: byte): (r: nat) {
    a as int * 0x1_0000 + b as int * 0x100 + c as int
  }

  /** Three bytes at a time; a rest is padded with zero bits and its missing letters become '='. */
  function Encoding(s: seq<byte>): (t: string) {
    if |s| == 0 then ""
    else if |s| == 1 then Group(Bits(s[0], 0, 0))[..2] + "=="
    else if |s| == 2 then Group(Bits(s[0], s[1], 0))[..3] + "="
    else Group(Bits(s[0], s[1], s[2])) + Encoding(s[3..])
  }

  function Groups(n: nat): (r: nat) {
    (n + 2) / 3
  }

  lemma {:induction false} EncodingLength(s: seq<byte>)
    ensures |Encoding(s)| == 4 * Groups(|s|)
  {
    hide Group, Bits;
    if |s| >= 3 {
      EncodingLength(s[3..]);
    }
  }

  lemma {:induction false} EncodingConcat(a: seq<byte>, b: seq<byte>)
    requires |a| % 3 == 0
    ensures Encoding(a + b) == Encoding(a) + Encoding(b)
  {
    if a == [] {
      assert a + b == b;
    } else {
      assert (a + b)[3..] == a[3..] + b;
      EncodingConcat(a[3..], b);
    }
  }

  /** A decoder: groups of four letters, the last of which may be padded. */
  function Decoding(t: string): (r: Option<seq<byte>>) {
    if t == "" then Some([])
    else if |t| < 4 then None
    else
      var a, b := Value(t[0]), Value(t[1]);
      if a.None? || b.None? then None
      else if t[2..] == "==" then Some([a.value * 4 + b.value / 16])
      else
        var c := Value(t[2]);
        if c.None? then None
        else if t[3..] == "=" then Some([a.value * 4 + b.value / 16, b.value % 16 * 16 + c.value / 4])
        else
          var d, rest := Value(t[3]), Decoding(t[4..]);
          if d.None? || rest.None? then None
          else
            Some([a.value * 4 + b.value / 16, b.value % 16 * 16 + c.value / 4, c.value % 4 * 64 + d.value] + rest.value)
  }

  function Letters(a: byte, b: byte, c: byte): (s: string)
    ensures |s| == 4
  {
    [Letter(a / 4), Letter(a % 4 * 16 + b / 16), Letter(b % 16 * 4 + c / 64), Letter(c % 64)]
  }

  lemma Over64(q: nat, r: nat)
    requires r < 64
    ensures (q * 64 + r) / 64 == q && (q * 64 + r) % 64 == r
  {
  }

  lemma TwiceOver64(v: nat)
    ensures v / 0x1000 == v / 64 / 64
  {
  }

  lemma ThriceOver64(v: nat)
    ensures v / 0x4_0000 == v / 0x1000 / 64
  {
  }

  /** Twenty-four bits put together from four sextets fall apart into them. */
  lemma FromSextets(w: sextet, x: sextet, y: sextet, z: sextet)
    ensures var v := ((w * 64 + x) * 64 + y) * 64 + z;
            v < 0x100_0000 && v / 0x4_0000 == w && v / 0x1000 % 64 == x && v / 64 % 64 == y && v % 64 == z
  {
    var v := ((w * 64 + x) * 64 + y) * 64 + z;
    Over64((w * 64 + x) * 64 + y, z);
    Over64(w * 64 + x, y);
    Over64(w, x);
    TwiceOver64(v);
    ThriceOver64(v);
  }

  /** Three bytes are four sextets. */
  lemma BytesAsSextets(a: byte, b: byte, c: byte)
    ensures Bits(a, b, c) == ((a / 4 * 64 + (a % 4 * 16 + b / 16)) * 64 + (b % 16 * 4 + c / 64)) * 64 + c % 64
  {
    assert a == a / 4 * 4 + a % 4;
    assert b == b / 16 * 16 + b % 16;
    assert c == c / 64 * 64 + c % 64;
  }

  /** The same four letters, computed byte by byte as the encoder does. */
  lemma GroupLetters(a: byte, b: byte, c: byte)
    ensures Bits(a, b, c) < 0x100_0000 && Group(Bits(a, b, c)) == Letters(a, b, c)
  {
    hide Letter, Bits;
    BytesAsSextets(a, b, c);
    FromSextets(a / 4, a % 4 * 16 + b / 16, b % 16 * 4 + c / 64, c % 64);
  }

  /** The values of a group's letters give its bytes back. */
  lemma LettersDecode(a: byte, b: byte, c: byte, t: string)
    requires |t| >= 4 && t[..4] == Letters(a, b, c)
    ensures Value(t[0]).Some? && Value(t[1]).Some? && Value(t[2]).Some? && Value(t[3]).Some? && t[2] != '='
              && t[3] != '='
    ensures var w, x, y, z := Value(t[0]).value, Value(t[1]).value, Value(t[2]).value, Value(t[3]).value;
            w * 4 + x / 16 == a && x % 16 * 16 + y / 4 == b && y % 4 * 64 + z == c
  {
    hide Letter, Value;
    var w, x, y, z := a / 4, a % 4 * 16 + b / 16, b % 16 * 4 + c / 64, c % 64;
    assert t[0] == t[..4][0] && t[1] == t[..4][1] && t[2] == t[..4][2] && t[3] == t[..4][3];
    ValueOfLetter(w);
    ValueOfLetter(x);
    ValueOfLetter(y);
    ValueOfLetter(z);
  }

  /** The decoder inverts the encoding. */
  lemma {:induction false} DecodingInverts(s: seq<byte>)
    ensures Decoding(Encoding(s)) == Some(s)
  {
    hide Letter, Value, Letters, Group, Bits;
    var t := Encoding(s);
    if s != [] {
      var a, b, c := s[0], if |s| > 1 then s[1] else 0, if |s| > 2 then s[2] else 0;
      var g := Letters(a, b, c);
      GroupLetters(a, b, c);
      LettersDecode(a, b, c, g);
      assert t[0] == g[0] && t[1] == g[1];
      if |s| == 1 {
        assert t[2..] == "==" && s == [a];
      } else if |s| == 2 {
        assert t[2] == g[2] && t[2..][0] != '=' && t[3..] == "=";
        assert s == [a, b];
      } else {
        DecodingInverts(s[3..]);
        assert t[2] == g[2] && t[3] == g[3] && t[4..] == Encoding(s[3..]);
        assert s == [a, b, c] + s[3..];
      }
    }
  }

  /** Table 1 of RFC 4648. */
  lemma Alphabet()
    ensures [
            Letter(0), Letter(1), Letter(2), Letter(3), Letter(4), Letter(5), Letter(6), Letter(7),
            Letter(8), Letter(9), Letter(10), Letter(11), Letter(12), Letter(13), Letter(14), Letter(15),
            Letter(16), Letter(17), Letter(18), Letter(19), Letter(20), Letter(21), Letter(22), Letter(23),
            Letter(24), Letter(25), Letter(26), Letter(27), Letter(28), Letter(29), Letter(30), Letter(31),
            Letter(32), Letter(33), Letter(34), Letter(35), Letter(36), Letter(37), Letter(38), Letter(39),
            Letter(40), Letter(41), Letter(42), Letter(43), Letter(44), Letter(45), Letter(46), Letter(47),
            Letter(48), Letter(49), Letter(50), Letter(51), Letter(52), Letter(53), Letter(54), Letter(55),
            Letter(56), Letter(57), Letter(58), Letter(59), Letter(60), Letter(61), Letter(62), Letter(63)
            ] == "ABCDEFGHIJKLMNOPQRSTUVWXYZabcdefghijklmnopqrstuvwxyz0123456789+/"
  {
  }

  /** A byte of the input, zero behind its end. */
  function ByteAt(s: seq<byte>, i: nat): (b: byte) {
    if i < |s| then s[i] else 0
  }

  /** Four letters tell three bytes, six bits each from the top; padding stands for missing bytes. */
  predicate TellsGroup(t: string, s: seq<byte>, k: nat) {
    var a, b, c := ByteAt(s, 3 * k), ByteAt(s, 3 * k + 1), ByteAt(s, 3 * k + 2);
    && 4 * k + 4 <= |t| && t[4 * k] == Letter(a / 4) && t[4 * k + 1] == Letter(a % 4 * 16 + b / 16)
    && t[4 * k + 2] == (if 3 * k + 1 < |s| then Letter(b % 16 * 4 + c / 64) else '=')
    && t[4 * k + 3] == (if 3 * k + 2 < |s| then Letter(c % 64) else '=')
  }

  lemma {:induction false} GroupsInOrder(s: seq<byte>, k: nat)
    requires 3 * k < |s|
    ensures TellsGroup(Encoding(s), s, k)
  {
    hide Group, Bits, Letter;
    if k > 0 {
      GroupsInOrder(s[3..], k - 1);
      var t := Encoding(s);
      assert t[4..] == Encoding(s[3..]);
      GroupBehind(Encoding(s), s, k);
    } else {
      FirstGroup(s);
    }
  }

  lemma FirstGroup(s: seq<byte>)
    requires s != []
    ensures TellsGroup(Encoding(s), s, 0)
  {
    hide Group, Bits, Letter;
    GroupLetters(s[0], ByteAt(s, 1), ByteAt(s, 2));
  }

  lemma GroupBehind(t: string, s: seq<byte>, k: nat)
    requires k > 0 && |t| >= 4 && |s| >= 3 && TellsGroup(t[4..], s[3..], k - 1)
    ensures TellsGroup(t, s, k)
  {
    hide Letter;
    assert ByteAt(s[3..], 3 * (k - 1)) == ByteAt(s, 3 * k);
    assert ByteAt(s[3..], 3 * (k - 1) + 1) == ByteAt(s, 3 * k + 1);
    assert ByteAt(s[3..], 3 * (k - 1) + 2) == ByteAt(s, 3 * k + 2);
  }

  // ---- the encoder ----

  /** The loop's bound `output_len - 1`, computed in a size_t. */
  function Bound(outputLen: nat): (bound: nat)
    requires outputLen <= SIZE_MAX
    ensures bound == if outputLen == 0 then SIZE_MAX else outputLen - 1
  {
    (outputLen - 1) % (SIZE_MAX + 1)
  }

  /** What is written of a text of length `n` lies inside a buffer of this capacity. */
  predicate StaysInside(n: nat, outputLen: nat, capacity: nat)
    requires outputLen <= SIZE_MAX
  {
    if n <= Bound(outputLen) then n < capacity else Bound(outputLen) <= capacity
  }

  /**
   * A buffer as long as it is said to be holds whatever is written, for every text, exactly when that length is at
   * least one. For length zero the bound wraps around, and only a buffer for the whole text is large enough.
   */
  lemma BoundHoldsExactly(outputLen: nat)
    requires outputLen <= SIZE_MAX
    ensures outputLen >= 1 <==>
              forall n: nat, capacity: nat :: outputLen <= capacity ==> StaysInside(n, outputLen, capacity)
    ensures outputLen == 0 ==>
              forall n: nat, capacity: nat :: n <= SIZE_MAX ==> (StaysInside(n, outputLen, capacity) <==> n < capacity)
  {
    if outputLen == 0 {
      assert !StaysInside(0, 0, 0);
    }
  }

  /** Appends letters while the bound allows it; stops at the first letter that it refuses. */
  method Emit(output: array<char>, outputLen: nat, at: nat, letters: string) returns (ok: bool, end: nat)
    requires outputLen <= SIZE_MAX && at <= Bound(outputLen)
    requires at <= output.Length && (at + |letters| <= output.Length || Bound(outputLen) <= output.Length)
    modifies output
    ensures at <= end <= output.Length
    ensures ok <==> at + |letters| <= Bound(outputLen)
    ensures end == if ok then at + |letters| else Bound(outputLen)
    ensures output[..end] == old(output[..at]) + letters[..end - at]
    ensures forall k :: end <= k < output.Length ==> output[k] == old(output[k])
  {
    end := at;
    for k := 0 to |letters|
      invariant end == at + k <= Bound(outputLen) && end <= output.Length
      invariant output[..end] == old(output[..at]) + letters[..k]
      invariant forall m :: end <= m < output.Length ==> output[m] == old(output[m])
    {
      if end >= Bound(outputLen) {
        return false, end;
      }
      output[end] := letters[k];
      end := end + 1;
    }
    assert letters[..|letters|] == letters;
    return true, end;
  }

  /** What casting a size_t to int gives. */
  function AsInt(n: nat): (r: int)
    ensures -0x8000_0000 <= r <= 0x7FFF_FFFF && (n - r) % 0x1_0000_0000 == 0
  {
    var low := n % 0x1_0000_0000;
    if low <= INT_MAX then low else low - 0x1_0000_0000
  }

  /** The encoder has used whole groups of the input and written their letters. */
  ghost predicate Encoded(input: seq<byte>, used: nat, output: seq<char>) {
    used % 3 == 0 && used <= |input| && output == Encoding(input[..used]) && |output| == used / 3 * 4
  }

  lemma NoneUsed(input: seq<byte>, output: seq<char>)
    requires output == []
    ensures Encoded(input, 0, output)
  {
    assert input[..0] == [];
  }

  lemma OneGroup(a: byte, b: byte, c: byte)
    ensures Encoding([a, b, c]) == Letters(a, b, c)
  {
    hide Letters, Group, Bits;
    GroupLetters(a, b, c);
    assert [a, b, c][3..] == [];
  }

  lemma InsideConcat(a: seq<byte>, g: seq<byte>, b: seq<byte>)
    requires |a| % 3 == 0 && |g| == 3
    ensures Encoding(a + g) == Encoding(a) + Encoding(g)
    ensures Encoding(a) + Encoding(g) <= Encoding(a + g + b)
  {
    hide Encoding;
    EncodingConcat(a, g);
    EncodingConcat(a + g, b);
  }

  lemma SplitAt(input: seq<byte>, used: nat)
    requires used + 3 <= |input|
    ensures input[..used + 3] == input[..used] + [input[used], input[used + 1], input[used + 2]]
    ensures input == input[..used] + [input[used], input[used + 1], input[used + 2]] + input[used + 3..]
  {
  }

  lemma NextGroup(input: seq<byte>, used: nat, output: seq<char>)
    requires Encoded(input, used, output) && used + 3 <= |input|
    ensures Encoded(input, used + 3, output + Letters(input[used], input[used + 1], input[used + 2]))
    ensures output + Letters(input[used], input[used + 1], input[used + 2]) <= Encoding(input)
  {
    hide Letters, Encoding;
    SplitAt(input, used);
    OneGroup(input[used], input[used + 1], input[used + 2]);
    InsideConcat(input[..used], [input[used], input[used + 1], input[used + 2]], input[used + 3..]);
  }

  lemma LastGroup(input: seq<byte>, used: nat, output: seq<char>)
    requires Encoded(input, used, output) && used < |input| < used + 3
    ensures var b := if used + 1 < |input| then input[used + 1] else 0;
            Encoding(input) == output
              + (Letters(input[used], b, 0)[..|input| - used + 1] + seq(3 - (|input| - used), i => '='))
  {
    hide Encoding, Letters;
    var g := input[used..];
    RestLetters(g);
    assert input == input[..used] + g;
    EncodingConcat(input[..used], g);
  }

  /** One or two bytes alone. */
  lemma RestLetters(g: seq<byte>)
    requires 0 < |g| < 3
    ensures var b := if |g| > 1 then g[1] else 0;
            Encoding(g) == Letters(g[0], b, 0)[..|g| + 1] + seq(3 - |g|, i => '=')
  {
    hide Letters, Group, Bits;
    GroupLetters(g[0], if |g| > 1 then g[1] else 0, 0);
    assert seq(3 - |g|, i => '=') == if |g| == 1 then "==" else "=";
  }

  lemma NoRest(input: seq<byte>, output: seq<char>)
    requires Encoded(input, |input|, output)
    ensures output == Encoding(input)
  {
    assert input[..|input|] == input;
  }

  /**
   * Encodes into the buffer, with a terminator. It succeeds exactly when the text is within the bound; a
   * failed call has written the letters in front of the bound. For a length of zero nothing is refused.
   */
  method Encode(input: seq<byte>, output: array<char>, outputLen: nat) returns (rc: int)
    requires outputLen <= SIZE_MAX && StaysInside(|Encoding(input)|, outputLen, output.Length)
    modifies output
    ensures var text, bound := Encoding(input), Bound(outputLen);
            if |text| <= bound
            then rc == AsInt(|text|) && output[..|text|] == text && output[|text|] == '\0'
                 && forall k :: |text| < k < output.Length ==> output[k] == old(output[k])
            else rc == -1 && output[..bound] == text[..bound]
                 && forall k :: bound <= k < output.Length ==> output[k] == old(output[k])
    ensures 4 * Groups(|input|) <= INT_MAX ==> (rc >= 0 <==> outputLen == 0 || outputLen >= 4 * Groups(|input|) + 1)
  {
    EncodingLength(input);
    hide Letters, Encoding, Encoded;
    var i, j := 0, 0;
    var arr3 := new byte[3](k => 0);
    var taken := 0;
    ghost var used := 0;
    NoneUsed(input, output[..0]);
    while taken < |input|
      invariant i < 3 && taken == used + i <= |input| && j <= Bound(outputLen) && j <= output.Length
      invariant Encoded(input, used, output[..j]) && output[..j] <= Encoding(input)
      invariant forall k :: 0 <= k < i ==> arr3[k] == input[used + k]
      invariant forall k :: j <= k < output.Length ==> output[k] == old(output[k])
    {
      arr3[i] := input[taken];
      i, taken := i + 1, taken + 1;
      if i == 3 {
        var letters := Letters(arr3[0], arr3[1], arr3[2]);
        NextGroup(input, used, output[..j]);
        ghost var after := output[..j] + letters;
        var ok;
        ok, j := Emit(output, outputLen, j, letters);
        if !ok {
          assert output[..j] == after[..j] == Encoding(input)[..j];
          return -1;
        }
        assert output[..j] == after;
        i, used := 0, used + 3;
      }
    }
    if i > 0 {
      var ok;
      ok, j := EncodeRest(input, used, arr3, i, output, outputLen, j);
      if !ok {
        return -1;
      }
    } else {
      NoRest(input, output[..j]);
    }
    output[j] := '\0';
    return AsInt(j);
  }

  /** Pads the bytes left over. */
  method EncodeRest(input: seq<byte>, ghost used: nat, arr3: array<byte>, i: nat, output: array<char>, outputLen: nat,
                    at: nat)
    returns (ok: bool, end: nat)
    requires arr3.Length == 3 && 0 < i < 3 && used + i == |input| && outputLen <= SIZE_MAX
    requires at <= Bound(outputLen) && at <= output.Length && StaysInside(|Encoding(input)|, outputLen, output.Length)
    requires Encoded(input, used, output[..at])
    requires forall k :: 0 <= k < i ==> arr3[k] == input[used + k]
    modifies arr3, output
    ensures ok <==> |Encoding(input)| <= Bound(outputLen)
    ensures end == if ok then |Encoding(input)| else Bound(outputLen)
    ensures end <= output.Length && output[..end] == Encoding(input)[..end]
    ensures forall k :: end <= k < output.Length ==> output[k] == old(output[k])
  {
    hide Letters, Encoding, Encoded;
    ClearRest(arr3, i);
    LastGroup(input, used, output[..at]);
    var letters := Letters(arr3[0], arr3[1], arr3[2])[..i + 1];
    var padding := seq(3 - i, k => '=');
    ghost var text := Encoding(input);
    assert text == output[..at] + (letters + padding);
    ok, end := Emit(output, outputLen, at, letters);
    assert output[..end] == text[..end];
    if ok {
      assert output[..end] + padding == text;
      ok, end := Emit(output, outputLen, end, padding);
      assert output[..end] == text[..end];
    }
  }

  method ClearRest(arr3: array<byte>, i: nat)
    requires arr3.Length == 3 && i <= 3
    modifies arr3
    ensures forall k :: 0 <= k < 3 ==> arr3[k] == if k < i then old(arr3[k]) else 0
  {
    for k := i to 3
      invariant forall m :: 0 <= m < 3 ==> arr3[m] == if i <= m < k then 0 else old(arr3[m])
    {
      arr3[k] := 0;
    }
  }

  // ---- the size of a reply ----

  /** The buffer size for a text, when a size_t can hold it. */
  method Base64Size(inputLen: nat) returns (size: Option<nat>)
    requires inputLen <= SIZE_MAX
    ensures size == if 4 * Groups(inputLen) + 1 <= SIZE_MAX then Some(4 * Groups(inputLen) + 1) else None
  {
    if inputLen > SIZE_MAX - 2 {
      return None;
    }
    var groups := (inputLen + 2) / 3;
    if groups > (SIZE_MAX - 1) / 4 {
      return None;
    }
    return Some(groups * 4 + 1);
  }

  /** A buffer of the computed size always suffices, exactly: with one cell less the encoder fails. */
  method EncodeSized(input: seq<byte>) returns (rc: int, text: string)
    requires |input| <= SIZE_MAX
    ensures 4 * Groups(|input|) + 1 <= SIZE_MAX ==>
              text == Encoding(input) && rc == AsInt(|text|) && Decoding(text) == Some(input)
    ensures 4 * Groups(|input|) + 1 > SIZE_MAX ==> rc == -1 && text == ""
  {
    var size := Base64Size(|input|);
    if size.None? {
      return -1, "";
    }
    var output := new char[size.value](k => '\0');
    EncodingLength(input);
    DecodingInverts(input);
    rc := Encode(input, output, size.value);
    text := output[..size.value - 1];
  }
}
