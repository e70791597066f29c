/** The table of symbols the sanitizer is used with, by code point, and what it makes of them. */
module Symbols {
  import opened Common
  import opened Sanitizer

  type point = n: int | 0x800 <= n < 0x11_0000 witness 0x800

  /** A code point as UTF-8 writes it in three or four bytes. */
  function Utf8(p: point): (s: text)
    ensures IsCharacter(s) && s[0] >= 0xE0 && |s| == if s[0] < 0xF0 then 3 else 4
  {
    if p < 0x1_0000 then [0xE0 + p / 0x1000, 0x80 + p / 64 % 64, 0x80 + p % 64]
    else [0xF0 + p / 0x4_0000, 0x80 + p / 0x1000 % 64, 0x80 + p / 64 % 64, 0x80 + p % 64]
  }

  /** A symbol, possibly with the selector that asks for its coloured form, and its spelling in ASCII. */
  datatype Known = Known(code: point, selected: bool, spelling: string)

  const SELECTOR: point := 0xFE0F

  predicate Spelled(s: string) {
    forall i :: 0 <= i < |s| ==> ' ' <= s[i] <= '~'
  }

  function Key(k: Known): (r: text) {
    Utf8(k.code) + if k.selected then Utf8(SELECTOR) else []
  }

  function Ascii(s: string): (t: text)
    requires Spelled(s)
    ensures Clean(t)
  {
    var t := seq(|s|, i requires 0 <= i < |s| => s[i] as int);
    assert forall i :: 0 <= i < |t| ==> t[i] != 0;
    t
  }

  /** In the program's order: log markers, the bare forms of three of them, characters of lists and trees. */
  const KNOWN: seq<Known> := [
    Known(0x2705, false, "[OK]"), Known(0x274C, false, "[ERR]"), Known(0x26A0, true, "[WARN]"),
    Known(0x2622, true, "[FATAL]"), Known(0x2139, true, "[INFO]"), Known(0x1F50E, false, "[DBG]"),
    Known(0x1F9F5, false, "[THREAD]"), Known(0x1F4DD, false, "[NOTE]"), Known(0x1F4E4, false, "[TX]"),
    Known(0x1F4E9, false, "[RX]"), Known(0x1F680, false, "[BOOT]"), Known(0x1F6D1, false, "[STOP]"),
    Known(0x1F510, false, "[SEC]"), Known(0x1F5D1, true, "[DEL]"), Known(0x1F465, false, "[USERS]"),
    Known(0x1F3AF, false, "[TARGET]"), Known(0x1F504, false, "[UPDATE]"), Known(0x1F4E5, false, "[IN]"),
    Known(0x1F4E6, false, "[BOX]"), Known(0x1F4C2, false, "[DIR]"),
    Known(0x26A0, false, "[WARN]"), Known(0x2622, false, "[FATAL]"), Known(0x1F5D1, false, "[DEL]"),
    Known(0x2022, false, "-"), Known(0x251C, false, "|"), Known(0x2514, false, "`"), Known(0x2500, false, "-")
  ]

  lemma AllSpelled()
    ensures forall i :: 0 <= i < |KNOWN| ==> Spelled(KNOWN[i].spelling)
  {
    MarkersAreSpelled();
    OthersAreSpelled();
  }

  lemma MarkersAreSpelled()
    ensures forall i :: 0 <= i < 13 ==> Spelled(KNOWN[i].spelling)
  {
    forall i | 0 <= i < 13 ensures Spelled(KNOWN[i].spelling) {
    }
  }

  lemma OthersAreSpelled()
    ensures forall i :: 13 <= i < |KNOWN| ==> Spelled(KNOWN[i].spelling)
  {
    forall i | 13 <= i < |KNOWN| ensures Spelled(KNOWN[i].spelling) {
    }
  }

  /** No symbol occurs twice, and a coloured form comes before its bare form. */
  lemma Distinct()
    ensures forall i, j :: 0 <= i < j < |KNOWN| ==>
              KNOWN[i].code != KNOWN[j].code || (KNOWN[i].selected && !KNOWN[j].selected)
  {
    forall i, j | 0 <= i < j < |KNOWN|
      ensures KNOWN[i].code != KNOWN[j].code || (KNOWN[i].selected && !KNOWN[j].selected)
    {
    }
  }

  function Entry(k: Known): (r: Replacement)
    requires Spelled(k.spelling)
  {
    Replacement(Key(k), Ascii(k.spelling))
  }

  function Table(): (t: seq<Replacement>)
    ensures |t| == |KNOWN| && forall i :: 0 <= i < |t| ==> Spelled(KNOWN[i].spelling) && t[i] == Entry(KNOWN[i])
  {
    AllSpelled();
    seq(|KNOWN|, i requires 0 <= i < |KNOWN| => Entry(KNOWN[i]))
  }

  // ---- how keys nest ----

  /** The code point of a written one, read back. */
  function Decoded(s: seq<byte>): (r: int)
    requires |s| >= 3 && (s[0] >= 0xF0 ==> |s| >= 4)
  {
    if s[0] < 0xF0 then (s[0] as int - 0xE0) * 0x1000 + (s[1] as int - 0x80) * 64 + (s[2] as int - 0x80)
    else
      (s[0] as int - 0xF0) * 0x4_0000 + (s[1] as int - 0x80) * 0x1000 + (s[2] as int - 0x80) * 64 + (s[3] as int - 0x80)
  }

  lemma Utf8Inverts(p: point, rest: seq<byte>)
    ensures Decoded(Utf8(p) + rest) == p
  {
    assert p / 64 == p / 0x1000 * 64 + p / 64 % 64;
    assert p / 0x1000 == p / 0x4_0000 * 64 + p / 0x1000 % 64;
  }

  /** Two code points at the front of the same bytes are the same. */
  lemma SamePoint(p: point, q: point, s: seq<byte>)
    requires Utf8(p) <= s && Utf8(q) <= s
    ensures p == q
  {
    Utf8Inverts(p, s[|Utf8(p)|..]);
    Utf8Inverts(q, s[|Utf8(q)|..]);
    assert s == Utf8(p) + s[|Utf8(p)|..] == Utf8(q) + s[|Utf8(q)|..];
  }

  lemma KeyFront(k: Known, s: seq<byte>)
    requires Key(k) <= s
    ensures Utf8(k.code) <= s && (k.selected ==> Utf8(SELECTOR) <= s[|Utf8(k.code)|..])
  {
    var u := Utf8(k.code);
    assert Key(k)[..|u|] == u && s[..|Key(k)|] == Key(k);
    assert s[..|u|] == u;
    if k.selected {
      assert s[|u|..][..3] == Key(k)[|u|..] == Utf8(SELECTOR);
    }
  }

  /** One key starts another only if it is the bare form of the same symbol. */
  lemma KeysNest(a: Known, b: Known)
    requires Key(a) <= Key(b)
    ensures a.code == b.code && (a.selected ==> b.selected)
  {
    KeyFront(a, Key(b));
    SamePoint(a.code, b.code, Key(b));
  }

  lemma TableIsRegular()
    ensures Regular(Table())
  {
  }

  lemma TableIsOrdered()
    ensures Ordered(Table())
  {
    var t := Table();
    Distinct();
    forall i, j | 0 <= i < j < |t| ensures !(t[i].key <= t[j].key) {
      if Key(KNOWN[i]) <= Key(KNOWN[j]) {
        KeysNest(KNOWN[i], KNOWN[j]);
      }
    }
  }

  // ---- what becomes of the symbols ----

  /**
   * Every known symbol is spelled out wherever it stands: the coloured form always, the bare
   * form unless the selector follows it.
   */
  lemma SymbolMatches(k: Known, rest: seq<byte>)
    requires k in KNOWN && (k.selected || !(Utf8(SELECTOR) <= rest))
    ensures Spelled(k.spelling) && Match(Table(), Key(k) + rest) == Some(Entry(k))
  {
    var i :| 0 <= i < |KNOWN| && KNOWN[i] == k;
    var t, s := Table(), Key(k) + rest;
    assert t[i] == Entry(k) && t[i] in t && Key(k) <= s;
    TableIsOrdered();
    LongestMatch(t, s, Entry(k));
    var m := Match(t, s).value;
    MatchIsPrefix(t, s);
    var j :| 0 <= j < |t| && t[j] == m;
    KeysNest(k, KNOWN[j]);
    if KNOWN[j].selected && !k.selected {
      KeyFront(KNOWN[j], s);
    }
    assert m.key == Key(k);
  }

  lemma SymbolStands(k: Known, rest: seq<byte>)
    requires k in KNOWN && (k.selected || !(Utf8(SELECTOR) <= rest))
    ensures Spelled(k.spelling)
    ensures Stands(Table(), Symbol(Entry(k)), rest)
    ensures Sanitized(Table(), Key(k) + rest) == Ascii(k.spelling) + Sanitized(Table(), rest)
  {
    SymbolMatches(k, rest);
    assert Key(k)[0] == Utf8(k.code)[0];
    ItemIsPiece(Table(), Symbol(Entry(k)), rest);
    assert (Key(k) + rest)[|Key(k)|..] == rest;
  }

  /** Any other character of several bytes becomes one question mark. */
  lemma OtherIsQuestion(p: point, rest: seq<byte>)
    requires (forall k :: k in KNOWN ==> k.code != p) && (rest == [] || !Continues(rest[0]))
    ensures Sanitized(Table(), Utf8(p) + rest) == [QUESTION] + Sanitized(Table(), rest)
  {
    var t, s := Table(), Utf8(p) + rest;
    MatchIsPrefix(t, s);
    if Match(t, s).Some? {
      var j :| 0 <= j < |t| && t[j] == Match(t, s).value;
      KeyFront(KNOWN[j], s);
      SamePoint(p, KNOWN[j].code, s);
      assert false;
    }
    ItemIsPiece(t, Character(Utf8(p)), rest);
    assert s[|Utf8(p)|..] == rest;
  }

  // ---- how much longer a line can get ----

  /** SL_PRINT_FMT_BUF and SL_PRINT_SAN_BUF */
  const FORMATTED_SIZE: nat := 2048
  const SANITIZED_SIZE: nat := 4096

  lemma SpellingsAreShort()
    ensures forall i :: 0 <= i < |KNOWN| ==> 3 * |KNOWN[i].spelling| <= 7 * |Key(KNOWN[i])|
  {
    forall i | 0 <= i < |KNOWN| ensures 3 * |KNOWN[i].spelling| <= 7 * |Key(KNOWN[i])| {
      assert KNOWN[i].code >= 0x1_0000 || KNOWN[i].selected || |KNOWN[i].spelling| <= 7;
      assert |KNOWN[i].spelling| <= 8;
    }
  }

  /** Sanitizing makes a string at most seven thirds as long. */
  lemma {:induction false} GrowthBound(s: seq<byte>)
    ensures 3 * |Sanitized(Table(), s)| <= 7 * |s|
    decreases |s|
  {
    if s != [] {
      var p := Next(Table(), s);
      MatchIsPrefix(Table(), s);
      SpellingsAreShort();
      GrowthBound(s[p.used..]);
      if Match(Table(), s).Some? {
        var i :| 0 <= i < |KNOWN| && Table()[i] == Match(Table(), s).value;
      }
    }
  }

  /** A formatted line of up to 1755 bytes is never cut by sanitizing it. */
  lemma ShortLinesAreWhole(s: seq<byte>)
    requires |s| <= 1755
    ensures Shown(Table(), s, SANITIZED_SIZE) == Sanitized(Table(), s)
  {
    GrowthBound(s);
  }

  const FATAL := Known(0x2622, false, "[FATAL]")

  function FatalLine(n: nat): (s: text)
    ensures s != [] && s[0] != 0xEF
  {
    if n == 0 then [0x61]
    else
      assert Key(FATAL)[0] == 0xE2;
      Key(FATAL) + FatalLine(n - 1)
  }

  lemma OneFatalMore(rest: seq<byte>)
    requires rest != [] && rest[0] != 0xEF
    ensures |Key(FATAL)| == 3 && |Sanitized(Table(), Key(FATAL) + rest)| == 7 + |Sanitized(Table(), rest)|
  {
    hide Sanitized, Next;
    assert FATAL == KNOWN[21];
    assert Utf8(SELECTOR)[0] == 0xEF;
    SymbolStands(FATAL, rest);
  }

  lemma LetterAlone()
    ensures Sanitized(Table(), [0x61]) == [0x61]
  {
    TableIsRegular();
    FixedIffClean(Table(), [0x61]);
  }

  lemma {:induction false} FatalLineGrows(n: nat)
    ensures |FatalLine(n)| == 3 * n + 1 && |Sanitized(Table(), FatalLine(n))| == 7 * n + 1
  {
    hide Sanitized, Table, Key;
    if n == 0 {
      LetterAlone();
    } else {
      OneFatalMore(FatalLine(n - 1));
      FatalLineGrows(n - 1);
    }
  }

  /** One byte more, and a line that fits the formatting buffer can lose its end. */
  lemma LongerLinesCanBeCut()
    ensures exists s: text :: |s| == 1756 < FORMATTED_SIZE && Shown(Table(), s, SANITIZED_SIZE) != Sanitized(Table(), s)
  {
    hide Sanitized, FatalLine;
    FatalLineGrows(585);
    assert |Shown(Table(), FatalLine(585), SANITIZED_SIZE)| < |Sanitized(Table(), FatalLine(585))|;
  }
}
