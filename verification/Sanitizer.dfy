/**
 * The output sanitizer: terminal escapes are dropped, known symbols are spelled out in ASCII and
 * everything else that is not printable becomes a question mark, within a buffer of fixed size.
 */
module Sanitizer {
  import opened Common

  /** A C string as bytes. */
  type text = s: seq<byte> | 0 !in s

  datatype Replacement = Replacement(key: text, ascii: text)

  const ESC: byte := 0x1B
  const BRACKET: byte := 0x5B
  const QUESTION: byte := 0x3F

  predicate Printable(b: byte) {
    b == 9 || b == 10 || b == 13 || 0x20 <= b <= 0x7E
  }

  predicate Clean(s: seq<byte>) {
    forall i :: 0 <= i < |s| ==> Printable(s[i])
  }

  /** Symbols start outside ASCII and are replaced by clean text. */
  predicate Regular(table: seq<Replacement>) {
    forall r :: r in table ==> Clean(r.ascii) && (r.key != [] ==> r.key[0] > 0x7F)
  }

  /** No symbol is hidden by an earlier one that is a prefix of it. */
  predicate Ordered(table: seq<Replacement>) {
    forall i, j :: 0 <= i < j < |table| && table[i].key != [] ==> !(table[i].key <= table[j].key)
  }

  // ---- the pieces of a string ----

  /** The first table entry whose symbol the string starts with. */
  function Match(table: seq<Replacement>, s: seq<byte>): (r: Option<Replacement>) {
    if table == [] then None
    else if table[0].key != [] && table[0].key <= s then Some(table[0])
    else Match(table[1..], s)
  }

  predicate Param(b: byte) {
    0x30 <= b <= 0x39 || b == 0x3B || b == 0x3F
  }

  function Params(s: seq<byte>): (n: nat)
    ensures n <= |s|
  {
    if s == [] || !Param(s[0]) then 0 else 1 + Params(s[1..])
  }

  predicate Continues(b: byte) {
    0x80 <= b < 0xC0
  }

  function Continuation(s: seq<byte>): (n: nat)
    ensures n <= |s|
  {
    if s == [] || !Continues(s[0]) then 0 else 1 + Continuation(s[1..])
  }

  /** How much of the string an escape at its front takes up. */
  function EscapeLength(s: seq<byte>): (n: nat)
    requires s != []
    ensures 0 < n <= |s|
  {
    if |s| == 1 || s[1] != BRACKET then 1
    else
      var n := 2 + Params(s[2..]);
      if n < |s| then n + 1 else n
  }

  datatype Piece = Piece(used: nat, shown: seq<byte>)

  function Next(table: seq<Replacement>, s: seq<byte>): (p: Piece)
    requires s != []
    ensures 0 < p.used <= |s|
  {
    var m := Match(table, s);
    if s[0] == ESC then Piece(EscapeLength(s), [])
    else if m.Some? then
      MatchIsPrefix(table, s);
      Piece(|m.value.key|, m.value.ascii)
    else if Printable(s[0]) then Piece(1, [s[0]])
    else Piece(1 + Continuation(s[1..]), [QUESTION])
  }

  lemma {:induction false} MatchIsPrefix(table: seq<Replacement>, s: seq<byte>)
    ensures var m := Match(table, s);
            if m.Some? then m.value in table && m.value.key != [] && m.value.key <= s
            else forall r :: r in table && r.key != [] ==> !(r.key <= s)
  {
    if table != [] {
      MatchIsPrefix(table[1..], s);
    }
  }

  /** What is shown of a string when there is room for all of it. */
  function Sanitized(table: seq<Replacement>, s: seq<byte>): (r: seq<byte>)
    decreases |s|
  {
    if s == [] then []
    else
      var p := Next(table, s);
      p.shown + Sanitized(table, s[p.used..])
  }

  /** What is left of it in a buffer of `size` bytes. */
  function Shown(table: seq<Replacement>, s: seq<byte>, size: nat): (t: seq<byte>)
    requires size > 0
    ensures |t| < size && t <= Sanitized(table, s)
  {
    var t := Sanitized(table, s);
    if |t| < size then t else t[..size - 1]
  }

  // ---- the sanitizer ----

  method Terminate(output: array<byte>, out: nat)
    requires out < output.Length
    modifies output
    ensures output[..out] == old(output[..out]) && output[out] == 0
    ensures forall k :: out < k < output.Length ==> output[k] == old(output[k])
  {
    output[out] := 0;
  }

  /** Copies what fits before the terminator. */
  method AppendBytes(dst: array<byte>, offset: nat, src: seq<byte>) returns (end: nat)
    requires offset < dst.Length
    modifies dst
    ensures end == if offset + |src| < dst.Length then offset + |src| else dst.Length - 1
    ensures dst[..end] == old(dst[..offset]) + src[..end - offset]
    ensures forall k :: end < k < dst.Length ==> dst[k] == old(dst[k])
  {
    end := offset;
    if src == [] {
      assert dst[..end] == old(dst[..offset]) + src[..0];
      return;
    }
    var k := 0;
    while k < |src| && end + 1 < dst.Length
      invariant k <= |src| && end == offset + k < dst.Length
      invariant dst[..end] == old(dst[..offset]) + src[..k]
      invariant forall m :: end <= m < dst.Length ==> dst[m] == old(dst[m])
    {
      dst[end] := src[k];
      end, k := end + 1, k + 1;
    }
    assert k == |src| ==> src[..k] == src;
    Terminate(dst, end);
  }

  method MatchReplacement(table: seq<Replacement>, s: seq<byte>) returns (m: Option<Replacement>)
    ensures m == Match(table, s)
  {
    var i := 0;
    assert table[0..] == table;
    while i < |table|
      invariant i <= |table| && Match(table[i..], s) == Match(table, s)
    {
      if table[i].key != [] && table[i].key <= s {
        return Some(table[i]);
      }
      assert table[i..][1..] == table[i + 1..];
      i := i + 1;
    }
    return None;
  }

  /** Moves past an escape sequence. */
  method SkipEscape(input: seq<byte>, at: nat) returns (p: nat)
    requires at < |input| && input[at] == ESC
    ensures p == at + EscapeLength(input[at..])
  {
    p := at + 1;
    if p < |input| && input[p] == BRACKET {
      p := p + 1;
      assert input[at..][2..] == input[p..];
      while p < |input| && Param(input[p])
        invariant at + 2 <= p <= |input| && at + 2 + Params(input[at + 2..]) == p + Params(input[p..])
      {
        assert input[p..][1..] == input[p + 1..];
        p := p + 1;
      }
      if p < |input| {
        p := p + 1;
      }
    }
  }

  /** Moves past the continuation bytes behind a character that cannot be shown. */
  method SkipContinuation(input: seq<byte>, at: nat) returns (p: nat)
    requires at <= |input|
    ensures p == at + Continuation(input[at..])
  {
    p := at;
    while p < |input| && Continues(input[p])
      invariant at <= p <= |input| && at + Continuation(input[at..]) == p + Continuation(input[p..])
    {
      assert input[p..][1..] == input[p + 1..];
      p := p + 1;
    }
  }

  /** One turn of the scan. */
  method Turn(table: seq<Replacement>, input: seq<byte>, at: nat, output: array<byte>, out: nat)
    returns (p: nat, end: nat)
    requires at < |input| && out + 1 < output.Length
    modifies output
    ensures p == at + Next(table, input[at..]).used
    ensures var shown := Next(table, input[at..]).shown;
            && end == (if out + |shown| < output.Length then out + |shown| else output.Length - 1)
            && output[..end] == old(output[..out]) + shown[..end - out]
    ensures forall k :: end < k < output.Length ==> output[k] == old(output[k])
  {
    if input[at] == ESC {
      p := SkipEscape(input, at);
      end := out;
      assert output[..end] == old(output[..out]) + [];
      return;
    }
    var m := MatchReplacement(table, input[at..]);
    if m.Some? {
      end := AppendBytes(output, out, m.value.ascii);
      p := at + |m.value.key|;
      return;
    }
    var shown := if Printable(input[at]) then input[at] else QUESTION;
    output[out] := shown;
    end := out + 1;
    assert output[..end] == old(output[..out]) + [shown];
    Terminate(output, end);
    p := at + 1;
    if !Printable(input[at]) {
      assert input[at..][1..] == input[p..];
      p := SkipContinuation(input, p);
    }
  }

  /** The scan: what fits of the sanitized string, terminated; nothing behind the terminator is touched. */
  method SanitizeAscii(table: seq<Replacement>, input: text, output: array<byte>)
    requires output.Length > 0
    modifies output
    ensures var t := Shown(table, input, output.Length);
            && output[..|t|] == t && output[|t|] == 0
            && forall k :: |t| < k < output.Length ==> output[k] == old(output[k])
  {
    hide Next, Sanitized;
    output[0] := 0;
    var p, out := 0, 0;
    ghost var all := Sanitized(table, input);
    assert input[0..] == input && output[..0] == [];
    while p < |input| && out + 1 < output.Length
      invariant 0 <= p <= |input| && 0 <= out < output.Length && output[..out] <= all
      invariant out + 1 < output.Length ==> all == output[..out] + Sanitized(table, input[p..])
      invariant forall k :: out < k < output.Length ==> output[k] == old(output[k])
      decreases |input| - p
    {
      ghost var before := output[..out];
      ghost var piece := Next(table, input[p..]);
      Unfold(table, input[p..]);
      assert input[p..][piece.used..] == input[p + piece.used..];
      ghost var from := out;
      p, out := Turn(table, input, p, output, out);
      Appended(all, before, piece.shown, Sanitized(table, input[p..]), out - from);
    }
    if out + 1 < output.Length {
      assert input[p..] == [];
      NothingLeft(table);
      assert all == output[..out];
    }
    Terminate(output, out);
  }

  /**
   * Writes the terminated text. In ASCII mode it is as much of the sanitized string as fits;
   * otherwise the string is cut and padded with zeros.
   */
  method Sanitize(table: seq<Replacement>, asciiMode: bool, input: text, output: array<byte>)
    modifies output
    ensures output.Length > 0 && asciiMode ==>
              var t := Shown(table, input, output.Length);
              && output[..|t|] == t && output[|t|] == 0
              && forall k :: |t| < k < output.Length ==> output[k] == old(output[k])
    ensures output.Length > 0 && !asciiMode ==>
              var n := if |input| < output.Length then |input| else output.Length - 1;
              output[..] == input[..n] + Zeros(output.Length - n)
  {
    if output.Length == 0 {
      return;
    }
    if asciiMode {
      SanitizeAscii(table, input, output);
    } else {
      var n := if |input| < output.Length then |input| else output.Length - 1;
      forall k | 0 <= k < output.Length { output[k] := if k < n then input[k] else 0; }
    }
  }

  lemma Unfold(table: seq<Replacement>, s: seq<byte>)
    requires s != []
    ensures Sanitized(table, s) == Next(table, s).shown + Sanitized(table, s[Next(table, s).used..])
  {
  }

  lemma NothingLeft(table: seq<Replacement>)
    ensures Sanitized(table, []) == []
  {
  }

  lemma Appended(all: seq<byte>, done: seq<byte>, piece: seq<byte>, rest: seq<byte>, n: nat)
    requires all == done + (piece + rest) && n <= |piece|
    ensures done + piece[..n] <= all
    ensures n == |piece| ==> all == (done + piece[..n]) + rest
  {
    assert n == |piece| ==> piece[..n] == piece;
  }

  // ---- clean text ----

  /** Whatever goes in, only printable ASCII, tabs and line ends come out. */
  /** Tabs, line feeds, carriage returns and ASCII from space to tilde. */
  predicate AllPrintable(s: seq<byte>) {
    forall i :: 0 <= i < |s| ==> s[i] == 9 || s[i] == 10 || s[i] == 13 || 0x20 <= s[i] <= 0x7E
  }

  lemma {:induction false} SanitizedIsClean(table: seq<Replacement>, s: seq<byte>)
    requires Regular(table)
    ensures Clean(Sanitized(table, s)) && AllPrintable(Sanitized(table, s))
    decreases |s|
  {
    if s != [] {
      MatchIsPrefix(table, s);
      SanitizedIsClean(table, s[Next(table, s).used..]);
    }
  }

  lemma PrintableIsPiece(table: seq<Replacement>, s: seq<byte>)
    requires Regular(table) && s != [] && Printable(s[0])
    ensures Next(table, s) == Piece(1, [s[0]])
  {
    MatchIsPrefix(table, s);
  }

  /** Clean text in front passes through unchanged and does not affect what follows. */
  lemma {:induction false} CleanFrontPasses(table: seq<Replacement>, a: seq<byte>, b: seq<byte>)
    requires Regular(table) && Clean(a)
    ensures Sanitized(table, a + b) == a + Sanitized(table, b)
  {
    hide Next, Regular, Sanitized;
    if a == [] {
      assert a + b == b;
    } else {
      assert Printable(a[0]) && (a + b)[0] == a[0];
      PrintableIsPiece(table, a + b);
      Unfold(table, a + b);
      assert (a + b)[1..] == a[1..] + b;
      CleanFrontPasses(table, a[1..], b);
      assert [a[0]] + (a[1..] + Sanitized(table, b)) == a + Sanitized(table, b);
    }
  }

  /** Exactly the clean strings are left alone. */
  lemma FixedIffClean(table: seq<Replacement>, s: seq<byte>)
    requires Regular(table)
    ensures Sanitized(table, s) == s <==> Clean(s)
    ensures Sanitized(table, s) == s <==> AllPrintable(s)
  {
    SanitizedIsClean(table, s);
    if Clean(s) {
      CleanFrontPasses(table, s, []);
      assert s + [] == s;
    }
  }

  /** Sanitizing once more into a buffer of the same size changes nothing. */
  lemma SecondPassChangesNothing(table: seq<Replacement>, s: seq<byte>, size: nat)
    requires Regular(table) && size > 0
    ensures Shown(table, Shown(table, s, size), size) == Shown(table, s, size) && Clean(Shown(table, s, size))
  {
    SanitizedIsClean(table, s);
    FixedIffClean(table, Shown(table, s, size));
  }

  /** Why regularity is needed: a symbol inside ASCII is replaced again by a second pass. */
  lemma AsciiSymbolIsReplacedAgain()
    ensures var table := [Replacement([0x61], [0x62]), Replacement([0x62], [0x63])];
            Shown(table, Shown(table, [0x61], 8), 8) != Shown(table, [0x61], 8)
  {
    var a, b := Replacement([0x61], [0x62]), Replacement([0x62], [0x63]);
    var table := [a, b];
    assert Match(table, [0x61]) == Some(a);
    assert [0x61][0] != [0x62][0] && !(a.key <= [0x62]);
    assert table[1..] == [b] && Match([b], [0x62]) == Some(b);
    assert Sanitized(table, [0x61]) == [0x62] + Sanitized(table, []);
    assert Sanitized(table, [0x62]) == [0x63] + Sanitized(table, []);
  }

  // ---- symbol by symbol ----

  /** With an ordered table the longest symbol at a place is the one replaced. */
  lemma LongestMatch(table: seq<Replacement>, s: seq<byte>, r: Replacement)
    requires Ordered(table) && r in table && r.key != [] && r.key <= s
    ensures Match(table, s).Some? && r.key <= Match(table, s).value.key <= s
    ensures Match(table, s).value.key == r.key ==> Match(table, s).value == r
  {
    FirstMatch(table, s);
    var i :| 0 <= i < |table| && Match(table, s) == Some(table[i]) && table[i].key != [] && table[i].key <= s
             && forall k :: 0 <= k < i && table[k].key != [] ==> !(table[k].key <= s);
    var j :| 0 <= j < |table| && table[j] == r;
    assert i <= j;
    if i < j {
      assert !(table[i].key <= r.key);
      Comparable(table[i].key, r.key, s);
    }
  }

  lemma {:induction false} FirstMatch(table: seq<Replacement>, s: seq<byte>)
    ensures Match(table, s).Some? ==>
              exists i :: 0 <= i < |table| && Match(table, s) == Some(table[i]) && table[i].key != []
                && table[i].key <= s
                && forall k :: 0 <= k < i && table[k].key != [] ==> !(table[k].key <= s)
    ensures Match(table, s).None? ==> forall k :: 0 <= k < |table| && table[k].key != [] ==> !(table[k].key <= s)
  {
    if table != [] && !(table[0].key != [] && table[0].key <= s) {
      FirstMatch(table[1..], s);
      if Match(table, s).Some? {
        var i :| 0 <= i < |table[1..]| && Match(table, s) == Some(table[1..][i])
                 && table[1..][i].key != [] && table[1..][i].key <= s
                 && forall k :: 0 <= k < i && table[1..][k].key != [] ==> !(table[1..][k].key <= s);
        forall k | 0 <= k < i + 1 && table[k].key != [] ensures !(table[k].key <= s) {
          assert k > 0 ==> table[k] == table[1..][k - 1];
        }
        assert Match(table, s) == Some(table[i + 1]);
      } else {
        forall k | 0 <= k < |table| && table[k].key != [] ensures !(table[k].key <= s) {
          assert k > 0 ==> table[k] == table[1..][k - 1];
        }
      }
    }
  }

  lemma Comparable(a: seq<byte>, b: seq<byte>, s: seq<byte>)
    requires a <= s && b <= s
    ensures a <= b || b <= a
  {
    assert a == s[..|a|] && b == s[..|b|];
    assert |a| <= |b| ==> a == b[..|a|];
    assert |b| <= |a| ==> b == a[..|b|];
  }

  /** A string as its author means it: characters, known symbols and terminal escapes. */
  datatype Item =
    | Character(bytes: seq<byte>)
    | Symbol(entry: Replacement)
    | Escape(params: seq<byte>, final: byte)

  /** One ASCII character other than escape, or one character of several bytes as UTF-8 writes it. */
  predicate IsCharacter(c: seq<byte>) {
    if |c| == 1 then 0 < c[0] < 0x80 && c[0] != 0x1B
    else |c| > 1 && c[0] >= 0xC0 && forall i :: 1 <= i < |c| ==> 0x80 <= c[i] <= 0xBF
  }

  function Written(item: Item): (r: seq<byte>) {
    match item
    case Character(bytes) => bytes
    case Symbol(entry) => entry.key
    case Escape(params, final) => [0x1B, 0x5B] + params + [final]
  }

  function AllWritten(items: seq<Item>): (r: seq<byte>) {
    if items == [] then [] else Written(items[0]) + AllWritten(items[1..])
  }

  /** The item is well formed, and what follows does not turn it into another symbol. */
  predicate Stands(table: seq<Replacement>, item: Item, rest: seq<byte>) {
    match item
    case Character(bytes) => IsCharacter(bytes) && Match(table, bytes + rest).None?
    case Symbol(entry) =>
      && Match(table, entry.key + rest) == Some(entry)
      && entry.key != [] && entry.key[0] != 0x1B && !Continues(entry.key[0])
    case Escape(params, final) =>
      && (forall i :: 0 <= i < |params| ==> 0x30 <= params[i] <= 0x39 || params[i] == 0x3B || params[i] == 0x3F)
      && 0 < final < 0x80 && !(0x30 <= final <= 0x39 || final == 0x3B || final == 0x3F)
  }

  predicate AllStand(table: seq<Replacement>, items: seq<Item>) {
    items != [] ==> Stands(table, items[0], AllWritten(items[1..])) && AllStand(table, items[1..])
  }

  /** A printable character as it is, another one as a question mark, a symbol spelled out, an escape not at all. */
  function Rendering(item: Item): (r: seq<byte>) {
    match item
    case Character(bytes) => if |bytes| == 1 && AllPrintable(bytes) then bytes else ['?' as int]
    case Symbol(entry) => entry.ascii
    case Escape(_, _) => []
  }

  function AllRendered(items: seq<Item>): (r: seq<byte>) {
    if items == [] then [] else Rendering(items[0]) + AllRendered(items[1..])
  }

  /** The scan over bytes shows exactly the items. */
  lemma {:induction false} ShowsItemByItem(table: seq<Replacement>, items: seq<Item>)
    requires AllStand(table, items)
    ensures Sanitized(table, AllWritten(items)) == AllRendered(items)
  {
    if items != [] {
      var rest := AllWritten(items[1..]);
      FrontIsWhole(table, items[1..]);
      ItemIsPiece(table, items[0], rest);
      var s := Written(items[0]) + rest;
      assert s[|Written(items[0])|..] == rest;
      ShowsItemByItem(table, items[1..]);
    }
  }

  /** What stands at the front of a string of items never continues a character before it. */
  lemma FrontIsWhole(table: seq<Replacement>, items: seq<Item>)
    requires AllStand(table, items)
    ensures AllWritten(items) == [] || !Continues(AllWritten(items)[0])
  {
  }

  lemma ItemIsPiece(table: seq<Replacement>, item: Item, rest: seq<byte>)
    requires Stands(table, item, rest)
    requires item.Character? ==> rest == [] || !Continues(rest[0])
    ensures Written(item) + rest != []
    ensures Next(table, Written(item) + rest) == Piece(|Written(item)|, Rendering(item))
  {
    match item
    case Character(bytes) => CharacterIsPiece(table, bytes, rest);
    case Symbol(entry) =>
    case Escape(params, final) => EscapeIsPiece(table, params, final, rest);
  }

  lemma CharacterIsPiece(table: seq<Replacement>, bytes: seq<byte>, rest: seq<byte>)
    requires IsCharacter(bytes) && Match(table, bytes + rest).None? && (rest == [] || !Continues(rest[0]))
    ensures Next(table, bytes + rest)
            == Piece(|bytes|, if |bytes| == 1 && Printable(bytes[0]) then bytes else [QUESTION])
  {
    if !Printable(bytes[0]) {
      assert (bytes + rest)[1..] == bytes[1..] + rest;
      ContinuationStops(bytes[1..], rest);
    }
  }

  lemma EscapeIsPiece(table: seq<Replacement>, params: seq<byte>, final: byte, rest: seq<byte>)
    requires (forall i :: 0 <= i < |params| ==> Param(params[i])) && !Param(final)
    ensures Next(table, [ESC, BRACKET] + params + [final] + rest) == Piece(|params| + 3, [])
  {
    var s := [ESC, BRACKET] + params + [final] + rest;
    assert s[2..] == params + ([final] + rest);
    ParamsStop(params, [final] + rest);
  }

  lemma {:induction false} ContinuationStops(a: seq<byte>, b: seq<byte>)
    requires (forall i :: 0 <= i < |a| ==> Continues(a[i])) && (b == [] || !Continues(b[0]))
    ensures Continuation(a + b) == |a|
  {
    if a == [] {
      assert a + b == b;
    } else {
      assert (a + b)[1..] == a[1..] + b;
      ContinuationStops(a[1..], b);
    }
  }

  lemma {:induction false} ParamsStop(a: seq<byte>, b: seq<byte>)
    requires (forall i :: 0 <= i < |a| ==> Param(a[i])) && (b == [] || !Param(b[0]))
    ensures Params(a + b) == |a|
  {
    if a == [] {
      assert a + b == b;
    } else {
      assert (a + b)[1..] == a[1..] + b;
      ParamsStop(a[1..], b);
    }
  }
}
