/**
 * The client's alias files: one "name,host,id" line per alias, read with fgets, strtok and strtoul,
 * and the operations that set, delete and resolve an alias through such a file.
 */
module AliasMap {
  import opened Common
  import opened Decimals

  const NAME_SIZE: nat := 128
  const HOST_SIZE: nat := 256
  const LINE_SIZE: nat := 512
  const ULONG_RANGE: int := 0x1_0000_0000_0000_0000
  const USER_MAX: nat := 0xFFFF
  const ACTION_MAX: nat := 0xFF

  datatype Entry = Entry(name: string, host: string, id: u32)

  /** Usable as a field of a line. */
  predicate Plain(s: string) {
    s != "" && ',' !in s && '\n' !in s && NUL !in s
  }

  /** A name that an entry can have. */
  predicate NameFits(name: string) {
    Plain(name) && |name| < NAME_SIZE
  }

  predicate WellFormed(e: Entry) {
    NameFits(e.name) && Plain(e.host) && |e.host| < HOST_SIZE && e.id > 0
  }

  // ---- the C library ----

  /** How many characters fgets takes: through a newline, and at most `limit`. */
  function ChunkLength(file: string, limit: nat): (n: nat)
    requires limit > 0
    ensures n <= |file| && n <= limit && (file != "" ==> n > 0)
  {
    if file == "" then 0
    else if file[0] == '\n' || limit == 1 then 1
    else 1 + ChunkLength(file[1..], limit - 1)
  }

  /** strtok: the token after leading delimiters, and what follows the delimiter behind it. */
  datatype Token = Token(text: Option<string>, rest: string)

  function SkipDelims(s: string, delims: string): (r: string) {
    if s != "" && s[0] in delims then SkipDelims(s[1..], delims) else s
  }

  function Cut(s: string, delims: string): (k: nat)
    ensures k <= |s|
  {
    if s == "" || s[0] in delims then 0 else 1 + Cut(s[1..], delims)
  }

  function NextToken(s: string, delims: string): (r: Token) {
    var t := SkipDelims(s, delims);
    var k := Cut(t, delims);
    if t == "" then Token(None, "") else Token(Some(t[..k]), if k < |t| then t[k + 1..] else "")
  }

  predicate IsSpace(c: char) {
    c == ' ' || '\t' <= c <= '\r'
  }

  function SkipSpaces(s: string): (r: string) {
    if s != "" && IsSpace(s[0]) then SkipSpaces(s[1..]) else s
  }

  predicate AllDigits(s: string) {
    forall i :: 0 <= i < |s| ==> '0' <= s[i] <= '9'
  }

  /** strtoul on the whole text, then the range check; a minus sign negates within an unsigned long. */
  function ParseId(s: string): (id: Option<u32>)
    ensures id.Some? ==> id.value > 0
  {
    var t := SkipSpaces(s);
    var negative := t != "" && t[0] == '-';
    var digits := if t != "" && (t[0] == '-' || t[0] == '+') then t[1..] else t;
    if digits == "" || !AllDigits(digits) then None
    else
      var v := DecimalValue(digits);
      if v >= ULONG_RANGE then None
      else
        var n := if negative then (ULONG_RANGE - v) % ULONG_RANGE else v;
        if n == 0 || n > U32_MAX then None else Some(n)
  }

  // ---- reading ----

  function ReadLine(chunk: string): (r: Option<Entry>) {
    var name := NextToken(Text(chunk), ",");
    var host := NextToken(name.rest, ",");
    var id := NextToken(host.rest, ",\n");
    if name.text.None? || host.text.None? || id.text.None? then None
    else
      var n := ParseId(id.text.value);
      if n.None? then None
      else Some(Entry(Clip(name.text.value, NAME_SIZE), Clip(host.text.value, HOST_SIZE), n.value))
  }

  function Listed(e: Option<Entry>): (r: seq<Entry>) {
    if e.Some? then [e.value] else []
  }

  function Read(file: string): (r: seq<Entry>)
    decreases |file|
  {
    if file == "" then []
    else
      var n := ChunkLength(file, LINE_SIZE - 1);
      Listed(ReadLine(file[..n])) + Read(file[n..])
  }

  // ---- writing ----

  function Line(e: Entry): (r: string) {
    e.name + "," + e.host + "," + Decimal(e.id) + "\n"
  }

  function Written(es: seq<Entry>): (r: string) {
    if es == [] then "" else Line(es[0]) + Written(es[1..])
  }

  // ---- any file reads as well-formed entries ----

  predicate NewlineLast(s: string) {
    forall i :: 0 <= i < |s| - 1 ==> s[i] != '\n'
  }

  lemma {:induction false} ChunkIsLine(file: string, limit: nat)
    requires limit > 0
    ensures NewlineLast(file[..ChunkLength(file, limit)])
  {
    if file != "" && file[0] != '\n' && limit > 1 {
      ChunkIsLine(file[1..], limit - 1);
      var n := ChunkLength(file[1..], limit - 1);
      assert file[..1 + n] == [file[0]] + file[1..][..n];
    }
  }

  /** One call takes a line with its break, or 511 characters of a longer one, or what is left. */
  lemma {:induction false} ChunkExactly(file: string, limit: nat)
    requires limit > 0
    ensures var n := ChunkLength(file, limit);
            && n <= limit && (forall i :: 0 <= i < n - 1 ==> file[i] != '\n')
            && (n == |file| || n == limit || (n > 0 && file[n - 1] == '\n'))
  {
    if file != "" && file[0] != '\n' && limit > 1 {
      ChunkExactly(file[1..], limit - 1);
    }
  }

  lemma {:induction false} TextIsPrefix(s: string)
    ensures Text(s) <= s && NUL !in Text(s)
  {
    if s != "" && s[0] != NUL {
      TextIsPrefix(s[1..]);
      assert s == [s[0]] + s[1..];
    }
  }

  lemma {:induction false} SkippedIsSuffix(s: string, delims: string)
    ensures var t := SkipDelims(s, delims); |t| <= |s| && t == s[|s| - |t|..] && (t != "" ==> t[0] !in delims)
  {
    if s != "" && s[0] in delims {
      SkippedIsSuffix(s[1..], delims);
    }
  }

  lemma {:induction false} CutIsFirst(s: string, delims: string)
    ensures forall i :: 0 <= i < Cut(s, delims) ==> s[i] !in delims
    ensures Cut(s, delims) < |s| ==> s[Cut(s, delims)] in delims
  {
    if s != "" && s[0] !in delims {
      CutIsFirst(s[1..], delims);
      assert forall i :: 1 <= i < |s| ==> s[i] == s[1..][i - 1];
    }
  }

  /** A token is a nonempty run without delimiters, and the rest lies behind it. */
  lemma TokenIs(s: string, delims: string)
    ensures var t := NextToken(s, delims);
            && (t.text.Some? ==> t.text.value != "" && (forall c :: c in t.text.value ==> c !in delims && c in s))
            && (forall c :: c in t.rest ==> c in s)
            && (NewlineLast(s) ==> NewlineLast(t.rest) && (t.text.Some? && t.rest != "" ==> '\n' !in t.text.value))
  {
    hide SkipDelims, Cut;
    var u := SkipDelims(s, delims);
    SkippedIsSuffix(s, delims);
    CutIsFirst(u, delims);
    var d := |s| - |u|;
    assert forall i :: 0 <= i < |u| ==> u[i] == s[d + i];
  }

  lemma ReadLineWellFormed(chunk: string)
    requires NewlineLast(chunk) && ReadLine(chunk).Some?
    ensures WellFormed(ReadLine(chunk).value)
  {
    var line := Text(chunk);
    TextIsPrefix(chunk);
    assert NewlineLast(line);
    var name := NextToken(line, ",");
    var host := NextToken(name.rest, ",");
    TokenIs(line, ",");
    TokenIs(name.rest, ",");
    assert name.rest != "" && host.rest != "";
    var n, h := name.text.value, host.text.value;
    assert Plain(n) && Plain(h);
    assert Clip(n, NAME_SIZE) <= n && Clip(h, HOST_SIZE) <= h;
  }

  /** Whatever a file holds, the entries read from it are well formed. */
  lemma {:induction false} ReadWellFormed(file: string)
    ensures forall e :: e in Read(file) ==> WellFormed(e)
    decreases |file|
  {
    if file != "" {
      var n := ChunkLength(file, LINE_SIZE - 1);
      ChunkIsLine(file, LINE_SIZE - 1);
      if ReadLine(file[..n]).Some? {
        ReadLineWellFormed(file[..n]);
      }
      ReadWellFormed(file[n..]);
    }
  }

  // ---- reading inverts writing ----

  lemma {:induction false} ChunkOfLine(line: string, rest: string, limit: nat)
    requires '\n' !in line && |line| < limit
    ensures ChunkLength(line + "\n" + rest, limit) == |line| + 1
  {
    var file := line + "\n" + rest;
    if line != "" {
      assert file[0] == line[0] && line[0] in line;
      assert file[1..] == line[1..] + "\n" + rest;
      ChunkOfLine(line[1..], rest, limit - 1);
    }
  }

  lemma {:induction false} TextOfPlain(s: string)
    requires NUL !in s
    ensures Text(s) == s
  {
    if s != "" {
      assert s[0] in s;
      TextOfPlain(s[1..]);
    }
  }

  lemma {:induction false} CutOf(s: string, rest: string, delims: string)
    requires (forall c :: c in s ==> c !in delims) && rest != "" && rest[0] in delims
    ensures Cut(s + rest, delims) == |s|
  {
    if s == "" {
      assert s + rest == rest;
    } else {
      assert s[0] in s && (s + rest)[1..] == s[1..] + rest;
      CutOf(s[1..], rest, delims);
    }
  }

  /** A field followed by a delimiter is the next token. */
  lemma TokenOf(s: string, d: char, rest: string, delims: string)
    requires s != "" && (forall c :: c in s ==> c !in delims) && d in delims
    ensures NextToken(s + [d] + rest, delims) == Token(Some(s), rest)
  {
    var all := s + [d] + rest;
    assert all[0] == s[0] && s[0] in s;
    assert all == s + ([d] + rest);
    CutOf(s, [d] + rest, delims);
    assert all[..|s|] == s && all[|s| + 1..] == rest;
  }

  /** A number is read with spaces and a sign in front, and refused when zero or too large; minus counts from 2^64. */
  lemma ParseIdExactly(spaces: string, digits: string)
    requires forall i :: 0 <= i < |spaces| ==> spaces[i] == ' ' || 9 <= spaces[i] as int <= 13
    requires digits != "" && forall i :: 0 <= i < |digits| ==> '0' <= digits[i] <= '9'
    ensures var v := DecimalValue(digits);
            var plain := if 1 <= v <= 0xFFFF_FFFF then Some(v) else None;
            && ParseId(spaces + digits) == plain && ParseId(spaces + ("+" + digits)) == plain
            && ParseId(spaces + ("-" + digits))
               == if 1 <= 0x1_0000_0000_0000_0000 - v <= 0xFFFF_FFFF then Some(0x1_0000_0000_0000_0000 - v) else None
  {
    Unsigned(spaces, digits);
    SignedPlus(spaces, digits);
    SignedMinus(spaces, digits);
  }

  /** `n` spaces, then, from `k` on, digits to the end, and at most one sign in between. */
  predicate Numeral(s: string, n: nat, k: nat) {
    && n <= k < |s| && (forall i :: 0 <= i < n ==> s[i] == ' ' || 9 <= s[i] as int <= 13)
    && (k == n || (k == n + 1 && (s[n] == '+' || s[n] == '-')))
    && forall i :: k <= i < |s| ==> '0' <= s[i] <= '9'
  }

  /** Nothing else is read. */
  lemma ParsedIsNumeral(s: string)
    requires ParseId(s).Some?
    ensures exists n: nat, k: nat :: Numeral(s, n, k)
  {
    hide SkipSpaces, DecimalValue;
    SkippedAreSpaces(s);
    var t := SkipSpaces(s);
    var n := |s| - |t|;
    if t[0] == '-' || t[0] == '+' {
      DigitsFrom(s, n + 1, t[1..]);
      assert s[n] == t[0];
      assert Numeral(s, n, n + 1);
    } else {
      DigitsFrom(s, n, t);
      assert Numeral(s, n, n);
    }
  }

  lemma DigitsFrom(s: string, k: nat, digits: string)
    requires k <= |s| && s[k..] == digits && AllDigits(digits)
    ensures forall i :: k <= i < |s| ==> '0' <= s[i] <= '9'
  {
    assert forall i :: k <= i < |s| ==> s[i] == digits[i - k];
  }

  lemma {:induction false} SkippedAreSpaces(s: string)
    ensures var t := SkipSpaces(s);
            && |t| <= |s| && s[|s| - |t|..] == t
            && forall i :: 0 <= i < |s| - |t| ==> s[i] == ' ' || 9 <= s[i] as int <= 13
  {
    if s != "" && IsSpace(s[0]) {
      SkippedAreSpaces(s[1..]);
      assert forall i :: 1 <= i < |s| ==> s[i] == s[1..][i - 1];
    }
  }

  lemma Unsigned(spaces: string, digits: string)
    requires (forall i :: 0 <= i < |spaces| ==> IsSpace(spaces[i])) && digits != "" && AllDigits(digits)
    ensures var v := DecimalValue(digits);
            ParseId(spaces + digits) == if 1 <= v <= 0xFFFF_FFFF then Some(v) else None
  {
    hide SkipSpaces, DecimalValue;
    SpacesSkipped(spaces, digits);
  }

  lemma SignedPlus(spaces: string, digits: string)
    requires (forall i :: 0 <= i < |spaces| ==> IsSpace(spaces[i])) && digits != "" && AllDigits(digits)
    ensures var v := DecimalValue(digits);
            ParseId(spaces + ("+" + digits)) == if 1 <= v <= 0xFFFF_FFFF then Some(v) else None
  {
    hide SkipSpaces, DecimalValue;
    SpacesSkipped(spaces, "+" + digits);
    assert ("+" + digits)[1..] == digits;
  }

  lemma SignedMinus(spaces: string, digits: string)
    requires (forall i :: 0 <= i < |spaces| ==> IsSpace(spaces[i])) && digits != "" && AllDigits(digits)
    ensures var v := DecimalValue(digits);
            ParseId(spaces + ("-" + digits))
            == if 1 <= 0x1_0000_0000_0000_0000 - v <= 0xFFFF_FFFF then Some(0x1_0000_0000_0000_0000 - v) else None
  {
    hide SkipSpaces, DecimalValue;
    SpacesSkipped(spaces, "-" + digits);
    assert ("-" + digits)[1..] == digits;
  }

  lemma {:induction false} SpacesSkipped(spaces: string, rest: string)
    requires (forall i :: 0 <= i < |spaces| ==> IsSpace(spaces[i])) && rest != "" && !IsSpace(rest[0])
    ensures SkipSpaces(spaces + rest) == rest
  {
    if spaces == "" {
      assert spaces + rest == rest;
    } else {
      assert (spaces + rest)[1..] == spaces[1..] + rest;
      SpacesSkipped(spaces[1..], rest);
    }
  }

  lemma ParseIdOfDecimal(id: u32)
    requires id > 0
    ensures ParseId(Decimal(id)) == Some(id)
  {
    DecimalInverts(id);
    var s := Decimal(id);
    assert '0' <= s[0] <= '9';
    assert SkipSpaces(s) == s;
  }

  lemma LineShape(e: Entry)
    ensures Line(e) == e.name + [','] + (e.host + [','] + (Decimal(e.id) + ['\n'] + ""))
  {
    hide Decimal;
  }

  lemma ReadLineOfLine(e: Entry)
    requires WellFormed(e)
    ensures ReadLine(Line(e)) == Some(e)
  {
    hide NextToken, ParseId, Text, Decimal;
    var id := Decimal(e.id);
    var line := Line(e);
    assert NUL !in id && ',' !in id && '\n' !in id;
    TextOfPlain(line);
    LineShape(e);
    TokenOf(e.name, ',', e.host + [','] + (id + ['\n'] + ""), ",");
    TokenOf(e.host, ',', id + ['\n'] + "", ",");
    TokenOf(id, '\n', "", ",\n");
    ParseIdOfDecimal(e.id);
  }

  /** A well-formed line is at most 395 characters, so one fgets takes all of it. */
  lemma LineIsChunk(e: Entry, rest: string)
    requires WellFormed(e)
    ensures |Line(e)| <= 395 && ChunkLength(Line(e) + rest, LINE_SIZE - 1) == |Line(e)|
  {
    assert Power10(10) == 10_000_000_000;
    DecimalLength(e.id, 10);
    var body := e.name + "," + e.host + "," + Decimal(e.id);
    assert Line(e) + rest == body + "\n" + rest;
    ChunkOfLine(body, rest, LINE_SIZE - 1);
  }

  lemma {:induction false} ReadInvertsWrite(es: seq<Entry>)
    requires forall e :: e in es ==> WellFormed(e)
    ensures Read(Written(es)) == es
  {
    if es != [] {
      var rest := Written(es[1..]);
      LineIsChunk(es[0], rest);
      ReadLineOfLine(es[0]);
      ReadInvertsWrite(es[1..]);
      var file, n := Written(es), |Line(es[0])|;
      assert file[..n] == Line(es[0]) && file[n..] == rest;
      assert es == [es[0]] + es[1..];
    }
  }

  // ---- the list operations ----

  function IndexOf(es: seq<Entry>, name: string): (i: nat)
    ensures i <= |es|
    ensures i < |es| ==> es[i].name == name
  {
    if es == [] || es[0].name == name then 0 else 1 + IndexOf(es[1..], name)
  }

  function Updated(es: seq<Entry>, name: string, host: string, id: u32): (r: seq<Entry>) {
    var i := IndexOf(es, name);
    if i < |es| then es[i := es[i].(host := Clip(host, HOST_SIZE), id := id)]
    else es + [Entry(Clip(name, NAME_SIZE), Clip(host, HOST_SIZE), id)]
  }

  function Removed(es: seq<Entry>, name: string): (r: seq<Entry>) {
    if es == [] then []
    else (if es[0].name == name then [] else [es[0]]) + Removed(es[1..], name)
  }

  /** The id of the first entry of this name whose id is in range, or zero. */
  function Resolved(es: seq<Entry>, name: string, max: nat): (r: nat) {
    if es == [] then 0
    else if es[0].name == name && 1 <= es[0].id <= max then es[0].id
    else Resolved(es[1..], name, max)
  }

  /** What is set, and that nothing else is touched: the first entry of the name, or one more entry at the end. */
  lemma UpdatedExactly(es: seq<Entry>, name: string, host: string, id: u32)
    ensures var u, fits := Updated(es, name, host, id), if |host| < 256 then host else host[..255];
            && (forall i :: 0 <= i < |es| && es[i].name == name && (forall j :: 0 <= j < i ==> es[j].name != name) ==>
                  u == es[i := Entry(name, fits, id)])
            && ((forall i :: 0 <= i < |es| ==> es[i].name != name) ==>
                  u == es + [Entry(if |name| < 128 then name else name[..127], fits, id)])
  {
    FirstOfName(es, name);
  }

  lemma {:induction false} FirstOfName(es: seq<Entry>, name: string)
    ensures forall j :: 0 <= j < IndexOf(es, name) ==> es[j].name != name
  {
    if es != [] && es[0].name != name {
      FirstOfName(es[1..], name);
      assert forall j :: 1 <= j < |es| ==> es[j] == es[1..][j - 1];
    }
  }

  /** The id of the first entry of the name whose id is in range, or zero when there is none. */
  lemma {:induction false} ResolvedExactly(es: seq<Entry>, name: string, max: nat)
    ensures Resolved(es, name, max) == 0 <==>
              forall i :: 0 <= i < |es| ==> !(es[i].name == name && 1 <= es[i].id <= max)
    ensures forall i :: 0 <= i < |es| && es[i].name == name && 1 <= es[i].id <= max
                        && (forall j :: 0 <= j < i ==> !(es[j].name == name && 1 <= es[j].id <= max)) ==>
              Resolved(es, name, max) == es[i].id
  {
    if es != [] {
      ResolvedExactly(es[1..], name, max);
      assert forall i :: 1 <= i < |es| ==> es[i] == es[1..][i - 1];
      forall i | 0 <= i < |es| && es[i].name == name && 1 <= es[i].id <= max
                 && (forall j :: 0 <= j < i ==> !(es[j].name == name && 1 <= es[j].id <= max))
        ensures Resolved(es, name, max) == es[i].id
      {
        if i > 0 {
          assert !(es[0].name == name && 1 <= es[0].id <= max);
          assert forall j :: 0 <= j < i - 1 ==> es[1..][j] == es[j + 1];
        }
      }
    }
  }

  /** Setting an alias makes it resolve to its id and leaves every other name alone. */
  lemma {:induction false} UpdatedResolves(es: seq<Entry>, name: string, host: string, id: u32, max: nat)
    requires |name| < NAME_SIZE && id > 0
    ensures id <= max ==> Resolved(Updated(es, name, host, id), name, max) == id
    ensures forall other: string :: other != name ==>
              Resolved(Updated(es, name, host, id), other, max) == Resolved(es, other, max)
  {
    var u := Updated(es, name, host, id);
    if es == [] {
      assert u[1..] == [];
    } else if es[0].name == name {
      assert u[1..] == es[1..];
    } else {
      UpdatedResolves(es[1..], name, host, id, max);
      assert u[0] == es[0] && u[1..] == Updated(es[1..], name, host, id);
    }
  }

  /** Deleting an alias makes it resolve to nothing and leaves every other name alone. */
  lemma {:induction false} RemovedResolves(es: seq<Entry>, name: string, max: nat)
    ensures Resolved(Removed(es, name), name, max) == 0
    ensures forall other: string :: other != name ==>
              Resolved(Removed(es, name), other, max) == Resolved(es, other, max)
  {
    if es != [] {
      RemovedResolves(es[1..], name, max);
      var r := Removed(es, name);
      if es[0].name != name {
        assert r[0] == es[0] && r[1..] == Removed(es[1..], name);
      } else {
        assert r == Removed(es[1..], name);
      }
    }
  }

  lemma ClippedIsPlain(t: string, size: nat)
    requires Plain(t) && size > 1
    ensures Plain(Clip(t, size)) && |Clip(t, size)| < size
  {
    assert Clip(t, size) <= t;
  }

  lemma UpdatedWellFormed(es: seq<Entry>, name: string, host: string, id: u32)
    requires (forall e :: e in es ==> WellFormed(e)) && Plain(name) && Plain(host) && id > 0
    ensures forall e :: e in Updated(es, name, host, id) ==> WellFormed(e)
  {
    ClippedIsPlain(name, NAME_SIZE);
    ClippedIsPlain(host, HOST_SIZE);
    var i := IndexOf(es, name);
    if i < |es| {
      assert es[i] in es;
    }
  }

  /** A name that no entry can have resolves to nothing. */
  lemma {:induction false} UnfittingResolves(es: seq<Entry>, name: string, max: nat)
    requires (forall e :: e in es ==> WellFormed(e)) && !NameFits(name)
    ensures Resolved(es, name, max) == 0 && IndexOf(es, name) == |es|
  {
    if es != [] {
      assert es[0] in es;
      UnfittingResolves(es[1..], name, max);
    }
  }

  lemma {:induction false} ResolvedAppend(es: seq<Entry>, e: Entry, name: string, max: nat)
    ensures Resolved(es + [e], name, max) ==
            if Resolved(es, name, max) != 0 then Resolved(es, name, max)
            else if e.name == name && e.id <= max then e.id else 0
  {
    var all := es + [e];
    if es == [] {
      assert all[1..] == [] && all[0] == e;
    } else {
      assert all[0] == es[0] && all[1..] == es[1..] + [e];
      ResolvedAppend(es[1..], e, name, max);
    }
  }

  /**
   * A name too long is stored cut: not it but its front may resolve to the id, unless that front did resolve
   * before.
   */
  lemma LongNameResolves(es: seq<Entry>, name: string, host: string, id: u32, max: nat)
    requires (forall e :: e in es ==> WellFormed(e)) && Plain(name) && |name| >= NAME_SIZE
    ensures var u, front := Updated(es, name, host, id), Clip(name, NAME_SIZE);
            && (Resolved(u, front, max) ==
              if Resolved(es, front, max) == 0 && id <= max then id else Resolved(es, front, max))
            && forall other: string :: other != front ==> Resolved(u, other, max) == Resolved(es, other, max)
  {
    UnfittingResolves(es, name, max);
    var e := Entry(Clip(name, NAME_SIZE), Clip(host, HOST_SIZE), id);
    forall other: string ensures Resolved(es + [e], other, max) ==
                                 if Resolved(es, other, max) != 0 then Resolved(es, other, max)
                                 else if e.name == other && e.id <= max then e.id else 0
    {
      ResolvedAppend(es, e, other, max);
    }
  }

  lemma {:induction false} RemovedAreThere(es: seq<Entry>, name: string)
    ensures forall e :: e in Removed(es, name) ==> e in es && e.name != name
    ensures forall e :: e in es && e.name != name ==> e in Removed(es, name)
    ensures |Removed(es, name)| == |es| <==> IndexOf(es, name) == |es|
    ensures |Removed(es, name)| <= |es|
  {
    if es != [] {
      RemovedAreThere(es[1..], name);
    }
  }

  lemma {:induction false} RemovedAppend(es: seq<Entry>, e: Entry, name: string)
    ensures Removed(es + [e], name) == Removed(es, name) + if e.name == name then [] else [e]
  {
    var all := es + [e];
    if es == [] {
      assert all == [e] && all[1..] == [];
    } else {
      assert all[0] == es[0] && all[1..] == es[1..] + [e];
      RemovedAppend(es[1..], e, name);
      assert Removed(all, name) == (if es[0].name == name then [] else [es[0]]) + Removed(all[1..], name);
    }
  }

  lemma {:induction false} WrittenAppend(es: seq<Entry>, e: Entry)
    ensures Written(es + [e]) == Written(es) + Line(e)
  {
    if es == [] {
      assert es + [e] == [e] && [e][1..] == [];
    } else {
      assert (es + [e])[1..] == es[1..] + [e];
      WrittenAppend(es[1..], e);
    }
  }

  // ---- in place ----

  const BLANK := Entry("", "", 0)

  /** realloc() to a larger list. */
  method Grow(list: array<Entry>, count: nat, capacity: nat) returns (r: array<Entry>)
    requires count <= list.Length && count <= capacity
    ensures fresh(r) && r.Length == capacity && r[..count] == list[..count]
  {
    r := new Entry[capacity](i => BLANK);
    forall i | 0 <= i < count { r[i] := list[i]; }
  }

  /** Adds an entry, doubling the list when it is full. */
  method Append(list: array<Entry>, count: nat, e: Entry, granted: nat -> bool) returns (ok: bool, r: array<Entry>)
    requires count <= list.Length
    modifies list
    ensures r == list || fresh(r)
    ensures ok ==> count < r.Length && r[..count + 1] == old(list[..count]) + [e]
    ensures (forall n: nat :: granted(n)) ==> ok
  {
    r := list;
    if count >= list.Length {
      var capacity := if list.Length == 0 then 8 else list.Length * 2;
      if !granted(capacity) {
        return false, list;
      }
      r := Grow(list, count, capacity);
    }
    r[count] := e;
    assert r[..count + 1] == r[..count] + [e];
    return true, r;
  }

  lemma EmptyFile()
    ensures Read("") == []
  {
  }

  lemma Joined(a: seq<Entry>, e: Option<Entry>, r: seq<Entry>)
    ensures a + (Listed(e) + r) == (if e.Some? then a + [e.value] else a) + r
    ensures [] + r == r
  {
  }

  lemma ReadStep(file: string)
    requires file != ""
    ensures var n := ChunkLength(file, 511);
            Read(file) == Listed(ReadLine(file[..n])) + Read(file[n..])
  {
    hide ReadLine, ChunkLength;
  }

  /** Reads line by line into a growing list; fails when the file cannot be opened or the list cannot grow. */
  method ReadMap(file: Option<string>, readable: bool, granted: nat -> bool)
    returns (ok: bool, list: array<Entry>, count: nat)
    ensures fresh(list) && count <= list.Length
    ensures ok ==> file.Some? && readable && list[..count] == Read(file.value)
    ensures file.Some? && readable && (forall n: nat :: granted(n)) ==> ok
  {
    list, count := new Entry[0](i => BLANK), 0;
    if file.None? || !readable {
      return false, list, 0;
    }
    hide Read, ReadLine, ChunkLength;
    var rest := file.value;
    Joined([], None, Read(rest));
    while rest != ""
      invariant count <= list.Length && fresh(list)
      invariant Read(file.value) == list[..count] + Read(rest)
      decreases |rest|
    {
      ReadStep(rest);
      var n := ChunkLength(rest, LINE_SIZE - 1);
      var e := ReadLine(rest[..n]);
      Joined(list[..count], e, Read(rest[n..]));
      rest := rest[n..];
      if e.Some? {
        ok, list := Append(list, count, e.value, granted);
        if !ok {
          return false, list, 0;
        }
        count := count + 1;
      }
    }
    EmptyFile();
    return true, list, count;
  }

  /** Changes the first entry of this name, or adds one at the end. */
  method UpdateEntry(list: array<Entry>, count: nat, name: string, host: string, id: u32, granted: bool)
    returns (ok: bool, r: array<Entry>, newCount: nat)
    requires count <= list.Length
    modifies list
    ensures (r == list || fresh(r)) && newCount <= r.Length
    ensures ok ==> r[..newCount] == Updated(old(list[..count]), name, host, id)
    ensures !ok <==> !granted && IndexOf(old(list[..count]), name) == count
  {
    var i := 0;
    assert list[..count][0..] == list[..count];
    while i < count
      invariant i <= count && list[..] == old(list[..])
      invariant i + IndexOf(list[..count][i..], name) == IndexOf(list[..count], name)
    {
      assert list[..count][i..][1..] == list[..count][i + 1..] && list[..count][i] == list[i];
      if list[i].name == name {
        list[i] := list[i].(host := Clip(host, HOST_SIZE), id := id);
        assert list[..count] == Updated(old(list[..count]), name, host, id);
        return true, list, count;
      }
      i := i + 1;
    }
    if !granted {
      return false, list, count;
    }
    r := Grow(list, count, count + 1);
    r[count] := Entry(Clip(name, NAME_SIZE), Clip(host, HOST_SIZE), id);
    assert r[..count + 1] == r[..count] + [r[count]];
    return true, r, count + 1;
  }

  /** Drops every entry of this name by moving the others forward. */
  method Compact(list: array<Entry>, count: nat, name: string) returns (found: bool, newCount: nat)
    requires count <= list.Length
    modifies list
    ensures newCount <= count && list[..newCount] == Removed(old(list[..count]), name)
    ensures found <==> newCount < count
  {
    found, newCount := false, 0;
    ghost var was := list[..count];
    assert was[..0] == [] && list[..0] == [];
    for i := 0 to count
      invariant newCount <= i && list[..newCount] == Removed(was[..i], name)
      invariant forall k :: i <= k < count ==> list[k] == was[k]
      invariant found <==> newCount < i
    {
      RemovedAppend(was[..i], was[i], name);
      assert was[..i + 1] == was[..i] + [was[i]];
      if list[i].name == name {
        found := true;
      } else {
        ghost var before := list[..newCount];
        list[newCount] := list[i];
        newCount := newCount + 1;
        assert list[..newCount] == before + [was[i]];
      }
    }
    assert was[..count] == was;
  }

  method WriteMap(list: array<Entry>, count: nat) returns (file: string)
    requires count <= list.Length
    ensures file == Written(list[..count])
  {
    file := "";
    assert list[..0] == [];
    for i := 0 to count
      invariant file == Written(list[..i])
    {
      WrittenAppend(list[..i], list[i]);
      assert list[..i + 1] == list[..i] + [list[i]];
      file := file + Line(list[i]);
    }
  }

  // ---- the operations ----

  /** Which of the foreign calls of an operation succeed. */
  datatype Grants = Grants(directory: bool, path: bool, readable: bool, writable: bool, memory: nat -> bool,
                           entry: bool)

  ghost predicate AllGranted(g: Grants) {
    g.directory && g.path && g.readable && g.writable && g.entry && forall n: nat :: g.memory(n)
  }

  function Entries(content: Option<string>): (r: seq<Entry>) {
    if content.Some? then Read(content.value) else []
  }

  /** The alias file of one host, for users or for actions; `max` is the largest id of its kind. */
  class AliasFile {
    var content: Option<string>
    const max: nat

    constructor ForUsers(content: Option<string>)
      ensures this.content == content && max == 65535
    {
      this.content, max := content, USER_MAX;
    }

    constructor ForActions(content: Option<string>)
      ensures this.content == content && max == 255
    {
      this.content, max := content, ACTION_MAX;
    }

    function Lookup(name: string): (r: nat)
      reads this
    {
      Resolved(Entries(content), name, max)
    }

    /**
     * A failed call leaves the file alone. A successful one makes the name resolve to the id exactly when it is a name
     * that an entry can have; a longer one sets its front instead, if that is free. Every other name is as before,
     * as long as name and host hold no delimiter.
     */
    method Set(host: string, name: string, id: u32, g: Grants) returns (ok: bool)
      requires NUL !in host && NUL !in name
      modifies this`content
      ensures !ok ==> content == old(content)
      ensures ok ==>
                host != "" && name != "" && id > 0
                  && content == Some(Written(Updated(old(Entries(content)), name, host, id)))
      ensures host != "" && name != "" && id > 0 && AllGranted(g) ==> ok
      ensures !NameFits(name) ==> Lookup(name) == 0
      ensures ok && Plain(host) && id <= max ==> (Lookup(name) == id <==> NameFits(name))
      ensures ok && Plain(host) && Plain(name) ==>
                var front := Clip(name, NAME_SIZE);
                && Entries(content) == Updated(old(Entries(content)), name, host, id)
                && (!NameFits(name) && (id > max || old(Lookup(front)) != 0) ==> Lookup(front) == old(Lookup(front)))
                && (id <= max && (NameFits(name) || old(Lookup(front)) == 0) ==> Lookup(front) == id)
                && (forall other: string :: other != front ==> Lookup(other) == old(Lookup(other)))
    {
      ghost var before := Entries(content);
      EntriesWellFormed(content);
      if !NameFits(name) {
        UnfittingResolves(before, name, max);
      }
      if host == "" || name == "" || id == 0 || !g.directory || !g.path {
        return false;
      }
      var list, count := new Entry[0](i => BLANK), 0;
      if content.Some? {
        ok, list, count := ReadMap(content, g.readable, g.memory);
        if !ok {
          return false;
        }
      }
      assert list[..count] == Entries(content);
      ok, list, count := UpdateEntry(list, count, name, host, id, g.entry);
      if !ok || !g.writable {
        return false;
      }
      var file := WriteMap(list, count);
      content := Some(file);
      Reread(before, content, name, host, id, max);
      return true;
    }

    /** Removes exactly this name; without it the call fails and changes nothing. */
    method Delete(host: string, name: string, g: Grants) returns (ok: bool)
      requires NUL !in host && NUL !in name
      modifies this`content
      ensures !ok ==> content == old(content)
      ensures ok ==> IndexOf(old(Entries(content)), name) < |old(Entries(content))|
      ensures ok ==> Entries(content) == Removed(old(Entries(content)), name) && Lookup(name) == 0
      ensures ok ==> forall other: string :: other != name ==> Lookup(other) == old(Lookup(other))
      ensures host != "" && name != "" && AllGranted(g) ==>
                (ok <==> IndexOf(old(Entries(content)), name) < |old(Entries(content))|)
    {
      if host == "" || name == "" || !g.path || content.None? {
        return false;
      }
      var list, count;
      ok, list, count := ReadMap(content, g.readable, g.memory);
      if !ok {
        return false;
      }
      ghost var before := Entries(content);
      RemovedAreThere(before, name);
      var found, kept := Compact(list, count, name);
      if !found || !g.writable {
        return false;
      }
      var file := WriteMap(list, kept);
      content := Some(file);
      EntriesWellFormed(old(content));
      ReadInvertsWrite(Removed(before, name));
      RemovedResolves(before, name, max);
      return true;
    }

    /** The id to use for a name, or zero. */
    method Resolve(name: string, g: Grants) returns (id: nat)
      ensures id == 0 || id == Lookup(name)
      ensures AllGranted(g) ==> id == Lookup(name)
      ensures id <= max
    {
      if !g.path {
        return 0;
      }
      var ok, list, count := ReadMap(content, g.readable, g.memory);
      if !ok {
        return 0;
      }
      assert list[..count][0..] == list[..count];
      for i := 0 to count
        invariant Resolved(list[..count][i..], name, max) == Lookup(name)
      {
        assert list[..count][i..][1..] == list[..count][i + 1..] && list[..count][i] == list[i];
        if list[i].name == name && 1 <= list[i].id <= max {
          return list[i].id;
        }
      }
      return 0;
    }
  }

  /** What resolves after a file has been written with an entry set. */
  lemma Reread(before: seq<Entry>, content: Option<string>, name: string, host: string, id: u32, max: nat)
    requires (forall e :: e in before ==> WellFormed(e)) && id > 0
    requires content == Some(Written(Updated(before, name, host, id)))
    ensures !NameFits(name) ==> Resolved(Entries(content), name, max) == 0
    ensures Plain(host) && Plain(name) ==>
              var front := Clip(name, NAME_SIZE);
              && Entries(content) == Updated(before, name, host, id)
              && (!NameFits(name) && (id > max || Resolved(before, front, max) != 0) ==>
                    Resolved(Entries(content), front, max) == Resolved(before, front, max))
              && (id <= max && (NameFits(name) || Resolved(before, front, max) == 0) ==>
                    Resolved(Entries(content), front, max) == id)
              && (forall other: string :: other != front ==>
                    Resolved(Entries(content), other, max) == Resolved(before, other, max))
  {
    hide Read, Written, Updated, Resolved;
    EntriesWellFormed(content);
    if !NameFits(name) {
      UnfittingResolves(Entries(content), name, max);
    }
    if Plain(host) && Plain(name) {
      UpdatedWellFormed(before, name, host, id);
      ReadInvertsWrite(Updated(before, name, host, id));
      if NameFits(name) {
        UpdatedResolves(before, name, host, id, max);
      } else {
        LongNameResolves(before, name, host, id, max);
      }
    }
  }

  /** A name with a line break is reported as set and sets another name, the part behind the break. */
  lemma LineBreakSetsAnother(front: string, a: string, host: string, id: u32, max: nat)
    requires ',' !in front && '\n' !in front && NUL !in front && |front| + |a| + 1 < NAME_SIZE
    requires NameFits(a) && Plain(host) && |host| < HOST_SIZE && 0 < id <= max
    ensures var es := Read(Written(Updated([], front + "\n" + a, host, id)));
            es == [Entry(a, host, id)] && Resolved(es, front + "\n" + a, max) == 0 && Resolved(es, a, max) == id
  {
    hide Read, ReadLine, Line, Written;
    var e, w := Entry(front + "\n" + a, host, id), Entry(a, host, id);
    assert Updated([], front + "\n" + a, host, id) == [e];
    OneLine(e);
    LineBehind(front, w);
    FirstLine(front, Line(w));
    NoHost(front + "\n");
    OneLine(w);
    ReadInvertsWrite([w]);
    assert '\n' in front + "\n" + a;
    UnfittingResolves([w], front + "\n" + a, max);
  }

  lemma LineBehind(front: string, w: Entry)
    ensures Line(Entry(front + "\n" + w.name, w.host, w.id)) == front + "\n" + Line(w)
  {
  }

  lemma OneLine(e: Entry)
    ensures Written([e]) == Line(e)
  {
    assert [e][1..] == [];
  }

  /** The first line of a file is read, or skipped, by itself. */
  lemma FirstLine(line: string, rest: string)
    requires '\n' !in line && |line| < LINE_SIZE - 1
    ensures Read(line + "\n" + rest) == Listed(ReadLine(line + "\n")) + Read(rest)
  {
    ChunkOfLine(line, rest, LINE_SIZE - 1);
    var file, n := line + "\n" + rest, |line| + 1;
    assert file[..n] == line + "\n" && file[n..] == rest;
    ReadStep(file);
  }

  /** A line without a comma is no entry. */
  lemma {:induction false} NoHost(chunk: string)
    requires ',' !in chunk && NUL !in chunk && chunk != ""
    ensures ReadLine(chunk).None?
  {
    TextOfPlain(chunk);
    TokenIs(chunk, ",");
    SkippedIsSuffix(chunk, ",");
    CutIsFirst(SkipDelims(chunk, ","), ",");
    assert NextToken(chunk, ",").rest == "";
  }

  lemma EntriesWellFormed(content: Option<string>)
    ensures forall e :: e in Entries(content) ==> WellFormed(e)
  {
    if content.Some? {
      ReadWellFormed(content.value);
    }
  }
}
