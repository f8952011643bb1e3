/** The rewriter that turns hexadecimal trace and span ids of a JSON document into base64
    while copying the document token by token. */
module JsonIds {
  import opened Wrappers

  const MAX_WALK_DEPTH := 100
  const MAX_ID_DEPTH := 64
  const TRACE_ID := 32
  const SPAN_ID := 16

  /** A body symbol by symbol; Junk is anything that is no JSON token. The decoder hands
      out neither Comma nor Colon. */
  datatype Symbol =
    | OpenBrace | CloseBrace | OpenBracket | CloseBracket | Comma | Colon | Junk
    | Text(s: string) | Number(literal: string) | Truth(b: bool) | Null

  datatype Json =
    | Object(members: Members)
    | Array(items: Items)
    | Str(s: string)
    | Num(literal: string)
    | Bool(b: bool)
    | Nothing

  datatype Members = NoMembers | Member(key: string, value: Json, rest: Members)

  datatype Items = NoItems | Item(first: Json, others: Items)

  // ----- documents as tokens and as text -----

  function Flat(j: Json): seq<Symbol> {
    match j
    case Object(ms) => [OpenBrace] + FlatMembers(ms) + [CloseBrace]
    case Array(items) => [OpenBracket] + FlatItems(items) + [CloseBracket]
    case Str(s) => [Text(s)]
    case Num(l) => [Number(l)]
    case Bool(b) => [Truth(b)]
    case Nothing => [Null]
  }

  function FlatMembers(ms: Members): seq<Symbol> {
    match ms
    case NoMembers => []
    case Member(k, v, rest) => [Text(k)] + Flat(v) + FlatMembers(rest)
  }

  function FlatItems(items: Items): seq<Symbol> {
    match items
    case NoItems => []
    case Item(v, others) => Flat(v) + FlatItems(others)
  }

  /** With the punctuation the decoder swallows. */
  function Print(j: Json): seq<Symbol> {
    match j
    case Object(ms) => [OpenBrace] + PrintMembers(ms, true) + [CloseBrace]
    case Array(items) => [OpenBracket] + PrintItems(items, true) + [CloseBracket]
    case Str(s) => [Text(s)]
    case Num(l) => [Number(l)]
    case Bool(b) => [Truth(b)]
    case Nothing => [Null]
  }

  function PrintMembers(ms: Members, first: bool): seq<Symbol> {
    match ms
    case NoMembers => []
    case Member(k, v, rest) => (if first then [] else [Comma]) + [Text(k), Colon] + Print(v) + PrintMembers(rest, false)
  }

  function PrintItems(items: Items, first: bool): seq<Symbol> {
    match items
    case NoItems => []
    case Item(v, others) => (if first then [] else [Comma]) + Print(v) + PrintItems(others, false)
  }

  // ----- bytes, hexadecimal and base64 (sections 4 and 8 of RFC 4648) -----

  type Byte = x: int | 0 <= x < 256

  function HexDigit(c: char): Option<nat>
    ensures HexDigit(c).Some? ==> HexDigit(c).value < 16
  {
    if '0' <= c <= '9' then Some((c - '0') as nat)
    else if 'a' <= c <= 'f' then Some((c - 'a') as nat + 10)
    else if 'A' <= c <= 'F' then Some((c - 'A') as nat + 10)
    else None
  }

  function FromHex(s: string): Option<seq<Byte>> {
    if s == [] then Some([])
    else if |s| == 1 then None
    else
      var hi, lo, rest := HexDigit(s[0]), HexDigit(s[1]), FromHex(s[2..]);
      if hi.Some? && lo.Some? && rest.Some? then Some([16 * hi.value + lo.value] + rest.value) else None
  }

  /** The alphabet of section 4. */
  function Letter(n: nat): char
    requires n < 64
  {
    if n < 26 then 'A' + n as char
    else if n < 52 then 'a' + (n - 26) as char
    else if n < 62 then '0' + (n - 52) as char
    else if n == 62 then '+' else '/'
  }

  function Index(c: char): Option<nat>
    ensures Index(c).Some? ==> Index(c).value < 64
  {
    if 'A' <= c <= 'Z' then Some((c - 'A') as nat)
    else if 'a' <= c <= 'z' then Some((c - 'a') as nat + 26)
    else if '0' <= c <= '9' then Some((c - '0') as nat + 52)
    else if c == '+' then Some(62)
    else if c == '/' then Some(63)
    else None
  }

  // Three octets as four sextets, and back.
  function First(a: Byte): (n: nat) ensures n < 64 { a / 4 }
  function Second(a: Byte, b: Byte): (n: nat) ensures n < 64 { a % 4 * 16 + b / 16 }
  function Third(b: Byte, c: Byte): (n: nat) ensures n < 64 { b % 16 * 4 + c / 64 }
  function Fourth(c: Byte): (n: nat) ensures n < 64 { c % 64 }
  function Octet1(x: nat, y: nat): Byte { (x * 4 + y / 16) % 256 }
  function Octet2(y: nat, z: nat): Byte { (y % 16 * 16 + z / 4) % 256 }
  function Octet3(z: nat, w: nat): Byte { (z % 4 * 64 + w) % 256 }

  lemma OctetBack1(a: Byte, b: Byte)
    ensures Octet1(First(a), Second(a, b)) == a
  {
  }

  lemma OctetBack2(a: Byte, b: Byte, c: Byte)
    ensures Octet2(Second(a, b), Third(b, c)) == b
  {
    assert Second(a, b) % 16 == b / 16;
    assert Third(b, c) / 4 == b % 16;
    hide Second, Third;
  }

  lemma OctetBack3(b: Byte, c: Byte)
    ensures Octet3(Third(b, c), Fourth(c)) == c
  {
  }

  lemma OctetsBack(a: Byte, b: Byte, c: Byte)
    ensures Octet1(First(a), Second(a, b)) == a && Octet2(Second(a, b), Third(b, c)) == b && Octet3(Third(b, c), Fourth(c)) == c
  {
    OctetBack1(a, b);
    OctetBack2(a, b, c);
    OctetBack3(b, c);
    hide Octet1, Octet2, Octet3, First, Second, Third, Fourth;
  }

  /** A last group of one or two octets is filled with zero bits and padded. */
  function ToBase64(b: seq<Byte>): string {
    if b == [] then []
    else if |b| == 1 then [Letter(First(b[0])), Letter(Second(b[0], 0)), '=', '=']
    else if |b| == 2 then [Letter(First(b[0])), Letter(Second(b[0], b[1])), Letter(Third(b[1], 0)), '=']
    else [Letter(First(b[0])), Letter(Second(b[0], b[1])), Letter(Third(b[1], b[2])), Letter(Fourth(b[2]))] + ToBase64(b[3..])
  }

  /** Reading base64 back, padding only in the last group. */
  function FromBase64(s: string): Option<seq<Byte>> {
    if s == [] then Some([])
    else if |s| < 4 || Index(s[0]).None? || Index(s[1]).None? then None
    else
      var x, y := Index(s[0]).value, Index(s[1]).value;
      if s[2] == '=' then
        if |s| == 4 && s[3] == '=' then Some([Octet1(x, y)]) else None
      else if Index(s[2]).None? then None
      else
        var z := Index(s[2]).value;
        if s[3] == '=' then
          if |s| == 4 then Some([Octet1(x, y), Octet2(y, z)]) else None
        else
          var rest := FromBase64(s[4..]);
          if Index(s[3]).None? || rest.None? then None
          else Some([Octet1(x, y), Octet2(y, z), Octet3(z, Index(s[3]).value)] + rest.value)
  }

  lemma LetterIndex(n: nat)
    requires n < 64
    ensures Index(Letter(n)) == Some(n) && Letter(n) != '='
  {
  }

  /** Reading back what one group of four was written from. */
  lemma GroupRead(x: nat, y: nat, z: nat, w: nat, rest: string)
    requires x < 64 && y < 64 && z < 64 && w < 64
    ensures FromBase64([Letter(x), Letter(y), '=', '=']) == Some([Octet1(x, y)])
    ensures FromBase64([Letter(x), Letter(y), Letter(z), '=']) == Some([Octet1(x, y), Octet2(y, z)])
    ensures FromBase64(rest).Some? ==>
              FromBase64([Letter(x), Letter(y), Letter(z), Letter(w)] + rest) ==
              Some([Octet1(x, y), Octet2(y, z), Octet3(z, w)] + FromBase64(rest).value)
  {
    LetterIndex(x);
    LetterIndex(y);
    LetterIndex(z);
    LetterIndex(w);
    hide Letter, Index, Octet1, Octet2, Octet3;
    assert ([Letter(x), Letter(y), Letter(z), Letter(w)] + rest)[4..] == rest;
  }

  lemma LastGroup(b: seq<Byte>)
    requires |b| == 1 || |b| == 2
    ensures FromBase64(ToBase64(b)) == Some(b)
  {
    hide Letter, Index, FromBase64, First, Second, Third, Fourth, Octet1, Octet2, Octet3;
    if |b| == 1 {
      OctetsBack(b[0], 0, 0);
      GroupRead(First(b[0]), Second(b[0], 0), 0, 0, []);
      assert b == [b[0]];
    } else {
      OctetsBack(b[0], b[1], 0);
      GroupRead(First(b[0]), Second(b[0], b[1]), Third(b[1], 0), 0, []);
      assert b == [b[0], b[1]];
    }
  }

  lemma FullGroup(b: seq<Byte>)
    requires |b| > 2 && FromBase64(ToBase64(b[3..])) == Some(b[3..])
    ensures FromBase64(ToBase64(b)) == Some(b)
  {
    hide Letter, Index, FromBase64, First, Second, Third, Fourth, Octet1, Octet2, Octet3;
    OctetsBack(b[0], b[1], b[2]);
    GroupRead(First(b[0]), Second(b[0], b[1]), Third(b[1], b[2]), Fourth(b[2]), ToBase64(b[3..]));
    assert b == [b[0], b[1], b[2]] + b[3..];
  }

  lemma {:induction false} Base64RoundTrip(b: seq<Byte>)
    ensures FromBase64(ToBase64(b)) == Some(b)
  {
    if |b| > 2 {
      Base64RoundTrip(b[3..]);
      FullGroup(b);
    } else if b != [] {
      LastGroup(b);
    }
  }

  lemma {:induction false} Base64Length(b: seq<Byte>)
    ensures |ToBase64(b)| == (|b| + 2) / 3 * 4
  {
    hide First, Second, Third, Fourth, Letter;
    if |b| > 2 { Base64Length(b[3..]); }
  }

  lemma {:induction false} HexLength(s: string)
    requires FromHex(s).Some?
    ensures |s| == 2 * |FromHex(s).value|
  {
    if |s| > 1 { HexLength(s[2..]); }
  }

  const HEX := "0123456789abcdef"
  const UPPER := "ABCDEFGHIJKLMNOPQRSTUVWXYZ"
  const LOWER := "abcdefghijklmnopqrstuvwxyz"
  const DIGITS := "0123456789"

  /** Two digits a byte, the high one first. */
  function ToHex(b: seq<Byte>): string {
    if b == [] then [] else [HEX[b[0] / 16], HEX[b[0] % 16]] + ToHex(b[1..])
  }

  function LowerDigit(c: char): char {
    if 'A' <= c <= 'F' then c - 'A' + 'a' else c
  }

  function Lower(s: string): string {
    if s == [] then [] else [LowerDigit(s[0])] + Lower(s[1..])
  }

  predicate IsHexDigit(c: char) {
    '0' <= c <= '9' || 'a' <= c <= 'f' || 'A' <= c <= 'F'
  }

  lemma DigitIsHex(c: char)
    ensures HexDigit(c).Some? <==> IsHexDigit(c)
    ensures HexDigit(c).Some? ==> HEX[HexDigit(c).value] == LowerDigit(c)
  {
  }

  lemma DigitOf(n: nat)
    requires n < 16
    ensures HexDigit(HEX[n]) == Some(n)
  {
  }

  /** The bytes a string spells are those it is the hexadecimal of, in either case; nothing
      else spells bytes. */
  lemma {:induction false} SpellsItsHex(s: string)
    ensures FromHex(s).Some? <==> |s| % 2 == 0 && forall c :: c in s ==> IsHexDigit(c)
    ensures FromHex(s).Some? ==> ToHex(FromHex(s).value) == Lower(s)
  {
    if |s| > 1 {
      SpellsItsHex(s[2..]);
      DigitIsHex(s[0]);
      DigitIsHex(s[1]);
      TwoDigits(s);
      AllOfThem(s);
      hide HexDigit, IsHexDigit, FromHex, ToHex, Lower;
    }
  }

  lemma AllOfThem(s: string)
    requires |s| > 1
    ensures (forall c :: c in s ==> IsHexDigit(c)) <==>
            IsHexDigit(s[0]) && IsHexDigit(s[1]) && forall c :: c in s[2..] ==> IsHexDigit(c)
  {
    hide IsHexDigit;
    assert s == [s[0], s[1]] + s[2..];
  }

  lemma TwoDigits(s: string)
    requires |s| > 1
    ensures FromHex(s).Some? <==> HexDigit(s[0]).Some? && HexDigit(s[1]).Some? && FromHex(s[2..]).Some?
    ensures FromHex(s).Some? && ToHex(FromHex(s[2..]).value) == Lower(s[2..]) ==> ToHex(FromHex(s).value) == Lower(s)
  {
    hide HexDigit, IsHexDigit, Lower, LowerDigit, ToHex, FromHex;
    FromHexTwo(s);
    DigitIsHex(s[0]);
    DigitIsHex(s[1]);
    LowerTwo(s);
    if FromHex(s).Some? { ByteHex(HexDigit(s[0]).value, HexDigit(s[1]).value, FromHex(s[2..]).value); }
  }

  lemma FromHexTwo(s: string)
    requires |s| > 1
    ensures var hi, lo, rest := HexDigit(s[0]), HexDigit(s[1]), FromHex(s[2..]);
            && (FromHex(s).Some? <==> hi.Some? && lo.Some? && rest.Some?)
            && (FromHex(s).Some? ==> FromHex(s).value == [16 * hi.value + lo.value] + rest.value)
  {
    hide HexDigit;
  }

  lemma LowerTwo(s: string)
    requires |s| > 1
    ensures Lower(s) == [LowerDigit(s[0]), LowerDigit(s[1])] + Lower(s[2..])
  {
    hide LowerDigit;
    assert s[1..][1..] == s[2..];
  }

  lemma ByteHex(hi: nat, lo: nat, rest: seq<Byte>)
    requires hi < 16 && lo < 16
    ensures ToHex([16 * hi + lo] + rest) == [HEX[hi], HEX[lo]] + ToHex(rest)
  {
    hide HEX, ToHex;
    var b: Byte := 16 * hi + lo;
    ByteParts(hi, lo);
    ToHexCons(b, rest);
  }

  lemma ByteParts(hi: nat, lo: nat)
    requires hi < 16 && lo < 16
    ensures (16 * hi + lo) / 16 == hi && (16 * hi + lo) % 16 == lo
  {
  }

  lemma ToHexCons(b: Byte, rest: seq<Byte>)
    ensures ToHex([b] + rest) == [HEX[b / 16], HEX[b % 16]] + ToHex(rest)
  {
    assert ([b] + rest)[1..] == rest;
  }

  lemma {:induction false} HexReadsBack(b: seq<Byte>)
    ensures FromHex(ToHex(b)) == Some(b)
  {
    if b != [] {
      HexReadsBack(b[1..]);
      DigitOf(b[0] / 16);
      DigitOf(b[0] % 16);
      hide HexDigit;
      var s := ToHex(b);
      assert s[2..] == ToHex(b[1..]);
      assert 16 * (b[0] / 16) + b[0] % 16 == b[0];
      assert b == [b[0]] + b[1..];
    }
  }

  /** The alphabet is the one of section 4 of RFC 4648, letter by letter. */
  lemma LettersAreTheAlphabet(n: nat)
    requires n < 64
    ensures Letter(n) == (UPPER + LOWER + DIGITS + "+/")[n]
  {
    if n < 26 {
      UpperLetter(n);
    } else if n < 52 {
      LowerLetter(n - 26);
    } else if n < 62 {
      assert DIGITS[n - 52] == '0' + (n - 52) as char;
    }
  }

  lemma UpperLetter(k: nat)
    requires k < 26
    ensures UPPER[k] == 'A' + k as char
  {
  }

  lemma LowerLetter(k: nat)
    requires k < 26
    ensures LOWER[k] == 'a' + k as char
  {
  }

  /** Four sextets hold the bits of three octets, the first octet highest. */
  lemma SextetsHoldTheBits(a: Byte, b: Byte, c: Byte)
    ensures 64 * (64 * (64 * First(a) + Second(a, b)) + Third(b, c)) + Fourth(c) == 256 * (256 * a + b) + c
  {
    assert a == 4 * (a / 4) + a % 4 && b == 16 * (b / 16) + b % 16 && c == 64 * (c / 64) + c % 64;
  }

  /** The base64 of the bytes the string spells, if it spells exactly as many as asked for. */
  function HexIdToBase64(s: string, n: nat): Option<string> {
    if |s| != n then None
    else
      var b := FromHex(s);
      if b.None? then None else Some(ToBase64(b.value))
  }

  // ----- what the rewriting means -----

  function IdLength(key: string): Option<nat> {
    if key == "traceId" || key == "trace_id" then Some(TRACE_ID)
    else if key == "spanId" || key == "span_id" || key == "parentSpanId" || key == "parent_span_id" then Some(SPAN_ID)
    else None
  }

  function NewText(s: string, depth: nat, key: string): Option<string> {
    if IdLength(key).Some? && depth <= MAX_ID_DEPTH then HexIdToBase64(s, IdLength(key).value) else None
  }

  /** A string is replaced exactly when it stands not too deep under one of the six keys and
      is a hexadecimal id of that key's length; the new text is the base64 of its bytes. */
  lemma WhatIsReplaced(s: string, depth: nat, key: string)
    ensures NewText(s, depth, key).Some? <==>
            && depth <= 64 && (forall c :: c in s ==> IsHexDigit(c))
            && ((key in {"traceId", "trace_id"} && |s| == 32)
                || (key in {"spanId", "span_id", "parentSpanId", "parent_span_id"} && |s| == 16))
    ensures forall b :: NewText(s, depth, key).Some? && ToHex(b) == Lower(s) ==> NewText(s, depth, key).value == ToBase64(b)
  {
    hide FromHex, ToHex, Lower, ToBase64, IsHexDigit;
    SpellsItsHex(s);
    forall b | NewText(s, depth, key).Some? && ToHex(b) == Lower(s)
      ensures NewText(s, depth, key).value == ToBase64(b)
    {
      HexReadsBack(b);
      HexReadsBack(FromHex(s).value);
    }
  }

  /** The same document with the ids under the six keys re-encoded; elements of an array have no key. */
  function Rewritten(j: Json, depth: nat, key: string): Json {
    match j
    case Object(ms) => Object(RewrittenMembers(ms, depth + 1))
    case Array(items) => Array(RewrittenItems(items, depth + 1))
    case Str(s) => if NewText(s, depth, key).Some? then Str(NewText(s, depth, key).value) else j
    case _ => j
  }

  function RewrittenMembers(ms: Members, depth: nat): Members {
    match ms
    case NoMembers => NoMembers
    case Member(k, v, rest) => Member(k, Rewritten(v, depth, k), RewrittenMembers(rest, depth))
  }

  function RewrittenItems(items: Items, depth: nat): Items {
    match items
    case NoItems => NoItems
    case Item(v, others) => Item(Rewritten(v, depth, ""), RewrittenItems(others, depth))
  }

  lemma IdChanges(s: string, depth: nat, key: string)
    requires NewText(s, depth, key).Some?
    ensures NewText(s, depth, key).value != s && NewText(NewText(s, depth, key).value, depth, key).None?
    ensures FromHex(s).Some? && FromBase64(NewText(s, depth, key).value) == FromHex(s)
  {
    HexLength(s);
    Base64RoundTrip(FromHex(s).value);
    Base64Length(FromHex(s).value);
  }

  /** Twice is once. */
  lemma {:induction false} RewritingTwice(j: Json, depth: nat, key: string)
    ensures Rewritten(Rewritten(j, depth, key), depth, key) == Rewritten(j, depth, key)
  {
    match j
    case Object(ms) => MembersTwice(ms, depth + 1);
    case Array(items) => ItemsTwice(items, depth + 1);
    case Str(s) => if NewText(s, depth, key).Some? { IdChanges(s, depth, key); }
    case _ =>
  }

  lemma {:induction false} MembersTwice(ms: Members, depth: nat)
    ensures RewrittenMembers(RewrittenMembers(ms, depth), depth) == RewrittenMembers(ms, depth)
  {
    match ms
    case NoMembers =>
    case Member(k, v, rest) =>
      RewritingTwice(v, depth, k);
      MembersTwice(rest, depth);
  }

  lemma {:induction false} ItemsTwice(items: Items, depth: nat)
    ensures RewrittenItems(RewrittenItems(items, depth), depth) == RewrittenItems(items, depth)
  {
    match items
    case NoItems =>
    case Item(v, others) =>
      RewritingTwice(v, depth, "");
      ItemsTwice(others, depth);
  }

  // ----- reading the token stream -----

  datatype Parsed<T> = Read(value: T, next: nat) | TooDeep | Malformed

  /** The document at pos. The decoder gives an error (or the end) instead of a bracket
      that does not match or a key that is no string; containers are entered only within
      the depth of the walk. */
  function ParseValue(toks: seq<Symbol>, pos: nat, depth: nat): (r: Parsed<Json>)
    requires pos <= |toks|
    ensures r.Read? ==> pos < r.next <= |toks|
    decreases |toks| - pos, 1
  {
    if pos == |toks| then Malformed
    else match toks[pos]
      case OpenBrace =>
        if depth > MAX_WALK_DEPTH then TooDeep
        else (match ParseMembers(toks, pos + 1, depth + 1)
              case Read(ms, next) => Read(Object(ms), next)
              case TooDeep => TooDeep
              case Malformed => Malformed)
      case OpenBracket =>
        if depth > MAX_WALK_DEPTH then TooDeep
        else (match ParseItems(toks, pos + 1, depth + 1)
              case Read(items, next) => Read(Array(items), next)
              case TooDeep => TooDeep
              case Malformed => Malformed)
      case Text(s) => Read(Str(s), pos + 1)
      case Number(l) => Read(Num(l), pos + 1)
      case Truth(b) => Read(Bool(b), pos + 1)
      case Null => Read(Nothing, pos + 1)
      case _ => Malformed
  }

  function ParseMembers(toks: seq<Symbol>, pos: nat, depth: nat): (r: Parsed<Members>)
    requires pos <= |toks|
    ensures r.Read? ==> pos < r.next <= |toks|
    decreases |toks| - pos, 2
  {
    if pos == |toks| then Malformed
    else match toks[pos]
      case CloseBrace => Read(NoMembers, pos + 1)
      case Text(key) => (
        match ParseValue(toks, pos + 1, depth)
        case TooDeep => TooDeep
        case Malformed => Malformed
        case Read(v, next) =>
          match ParseMembers(toks, next, depth)
          case TooDeep => TooDeep
          case Malformed => Malformed
          case Read(rest, end) => Read(Member(key, v, rest), end))
      case _ => Malformed
  }

  function ParseItems(toks: seq<Symbol>, pos: nat, depth: nat): (r: Parsed<Items>)
    requires pos <= |toks|
    ensures r.Read? ==> pos < r.next <= |toks|
    decreases |toks| - pos, 2
  {
    if pos == |toks| then Malformed
    else if toks[pos].CloseBracket? then Read(NoItems, pos + 1)
    else
      match ParseValue(toks, pos, depth)
      case TooDeep => TooDeep
      case Malformed => Malformed
      case Read(v, next) =>
        match ParseItems(toks, next, depth)
        case TooDeep => TooDeep
        case Malformed => Malformed
        case Read(others, end) => Read(Item(v, others), end)
  }

  /** No container opens beyond the walk's depth. */
  predicate Shallow(j: Json, depth: nat) {
    match j
    case Object(ms) => depth <= MAX_WALK_DEPTH && ShallowMembers(ms, depth + 1)
    case Array(items) => depth <= MAX_WALK_DEPTH && ShallowItems(items, depth + 1)
    case _ => true
  }

  predicate ShallowMembers(ms: Members, depth: nat) {
    match ms
    case NoMembers => true
    case Member(_, v, rest) => Shallow(v, depth) && ShallowMembers(rest, depth)
  }

  predicate ShallowItems(items: Items, depth: nat) {
    match items
    case NoItems => true
    case Item(v, others) => Shallow(v, depth) && ShallowItems(others, depth)
  }

  /** How many containers lie within one another. */
  function Nesting(j: Json): nat {
    match j
    case Object(ms) => 1 + NestingOfMembers(ms)
    case Array(items) => 1 + NestingOfItems(items)
    case _ => 0
  }

  function Most(a: nat, b: nat): nat { if a < b then b else a }

  function NestingOfMembers(ms: Members): nat {
    match ms case NoMembers => 0 case Member(_, v, rest) => Most(Nesting(v), NestingOfMembers(rest))
  }

  function NestingOfItems(items: Items): nat {
    match items case NoItems => 0 case Item(v, others) => Most(Nesting(v), NestingOfItems(others))
  }

  /** A document is walked to its end exactly when no more than 101 containers nest in it. */
  lemma {:induction false} ShallowIsLittleNesting(j: Json, depth: nat)
    requires depth <= 101
    ensures Shallow(j, depth) <==> depth + Nesting(j) <= 101
    decreases j
  {
    match j
    case Object(ms) => if depth <= 100 { MembersNestLittle(ms, depth + 1); }
    case Array(items) => if depth <= 100 { ItemsNestLittle(items, depth + 1); }
    case _ =>
  }

  lemma {:induction false} MembersNestLittle(ms: Members, depth: nat)
    requires depth <= 101
    ensures ShallowMembers(ms, depth) <==> depth + NestingOfMembers(ms) <= 101
    decreases ms
  {
    match ms
    case NoMembers =>
    case Member(_, v, rest) =>
      ShallowIsLittleNesting(v, depth);
      MembersNestLittle(rest, depth);
  }

  lemma {:induction false} ItemsNestLittle(items: Items, depth: nat)
    requires depth <= 101
    ensures ShallowItems(items, depth) <==> depth + NestingOfItems(items) <= 101
    decreases items
  {
    match items
    case NoItems =>
    case Item(v, others) =>
      ShallowIsLittleNesting(v, depth);
      ItemsNestLittle(others, depth);
  }

  /** toks reads part at pos. */
  predicate Holds(toks: seq<Symbol>, pos: nat, part: seq<Symbol>) {
    pos + |part| <= |toks| && toks[pos..pos + |part|] == part
  }

  lemma HoldsParts(toks: seq<Symbol>, pos: nat, a: seq<Symbol>, b: seq<Symbol>)
    ensures Holds(toks, pos, a + b) <==> Holds(toks, pos, a) && Holds(toks, pos + |a|, b)
  {
    if Holds(toks, pos, a + b) {
      var whole := toks[pos..pos + |a + b|];
      assert toks[pos..pos + |a|] == whole[..|a|] && toks[pos + |a|..pos + |a| + |b|] == whole[|a|..];
    }
  }

  lemma HoldsNone(toks: seq<Symbol>, pos: nat)
    requires pos <= |toks|
    ensures Holds(toks, pos, [])
  {
  }

  lemma HoldsFirst(toks: seq<Symbol>, pos: nat, part: seq<Symbol>)
    requires Holds(toks, pos, part) && part != []
    ensures pos < |toks| && toks[pos] == part[0]
  {
    assert toks[pos..pos + |part|][0] == toks[pos];
  }

  lemma HoldsOne(toks: seq<Symbol>, pos: nat, x: Symbol)
    ensures Holds(toks, pos, [x]) <==> pos < |toks| && toks[pos] == x
  {
  }

  /** A document in the stream is read as itself, or refused for its depth alone. */
  lemma {:induction false} ReadsDocument(j: Json, toks: seq<Symbol>, pos: nat, depth: nat)
    requires Holds(toks, pos, Flat(j))
    ensures ParseValue(toks, pos, depth) == if Shallow(j, depth) then Read(j, pos + |Flat(j)|) else TooDeep
    decreases j
  {
    hide Holds;
    match j
    case Object(ms) =>
      HoldsParts(toks, pos, [OpenBrace] + FlatMembers(ms), [CloseBrace]);
      HoldsParts(toks, pos, [OpenBrace], FlatMembers(ms));
      HoldsOne(toks, pos, OpenBrace);
      HoldsOne(toks, pos + 1 + |FlatMembers(ms)|, CloseBrace);
      if depth <= MAX_WALK_DEPTH { ReadsMembers(ms, toks, pos + 1, depth + 1); }
    case Array(items) =>
      HoldsParts(toks, pos, [OpenBracket] + FlatItems(items), [CloseBracket]);
      HoldsParts(toks, pos, [OpenBracket], FlatItems(items));
      HoldsOne(toks, pos, OpenBracket);
      HoldsOne(toks, pos + 1 + |FlatItems(items)|, CloseBracket);
      if depth <= MAX_WALK_DEPTH { ReadsItems(items, toks, pos + 1, depth + 1); }
    case Str(s) => HoldsOne(toks, pos, Text(s));
    case Num(l) => HoldsOne(toks, pos, Number(l));
    case Bool(b) => HoldsOne(toks, pos, Truth(b));
    case Nothing => HoldsOne(toks, pos, Null);
  }

  lemma {:induction false} ReadsMembers(ms: Members, toks: seq<Symbol>, pos: nat, depth: nat)
    requires Holds(toks, pos, FlatMembers(ms))
    requires pos + |FlatMembers(ms)| < |toks| && toks[pos + |FlatMembers(ms)|] == CloseBrace
    ensures ParseMembers(toks, pos, depth) ==
            if ShallowMembers(ms, depth) then Read(ms, pos + |FlatMembers(ms)| + 1) else TooDeep
    decreases ms
  {
    hide Holds;
    match ms
    case NoMembers =>
    case Member(k, v, rest) =>
      HoldsParts(toks, pos, [Text(k)] + Flat(v), FlatMembers(rest));
      HoldsParts(toks, pos, [Text(k)], Flat(v));
      HoldsOne(toks, pos, Text(k));
      ReadsDocument(v, toks, pos + 1, depth);
      if Shallow(v, depth) { ReadsMembers(rest, toks, pos + 1 + |Flat(v)|, depth); }
  }

  lemma FlatOpens(j: Json)
    ensures Flat(j) != [] && !Flat(j)[0].CloseBracket? && !Flat(j)[0].CloseBrace?
  {
  }

  lemma {:induction false} ReadsItems(items: Items, toks: seq<Symbol>, pos: nat, depth: nat)
    requires Holds(toks, pos, FlatItems(items))
    requires pos + |FlatItems(items)| < |toks| && toks[pos + |FlatItems(items)|] == CloseBracket
    ensures ParseItems(toks, pos, depth) ==
            if ShallowItems(items, depth) then Read(items, pos + |FlatItems(items)| + 1) else TooDeep
    decreases items
  {
    hide Holds, Flat, Shallow, ParseValue;
    match items
    case NoItems =>
    case Item(v, others) =>
      HoldsParts(toks, pos, Flat(v), FlatItems(others));
      FlatOpens(v);
      HoldsFirst(toks, pos, Flat(v));
      ReadsDocument(v, toks, pos, depth);
      if Shallow(v, depth) { ReadsItems(others, toks, pos + |Flat(v)|, depth); }
  }

  /** What was read is in the stream. */
  lemma {:induction false} ReadIsThere(toks: seq<Symbol>, pos: nat, depth: nat)
    requires pos <= |toks| && ParseValue(toks, pos, depth).Read?
    ensures var r := ParseValue(toks, pos, depth);
            Holds(toks, pos, Flat(r.value)) && r.next == pos + |Flat(r.value)| && Shallow(r.value, depth)
    decreases |toks| - pos, 1
  {
    hide Holds;
    var j := ParseValue(toks, pos, depth).value;
    match j
    case Object(ms) =>
      MembersAreThere(toks, pos + 1, depth + 1);
      HoldsOne(toks, pos, OpenBrace);
      HoldsOne(toks, pos + 1 + |FlatMembers(ms)|, CloseBrace);
      HoldsParts(toks, pos, [OpenBrace], FlatMembers(ms));
      HoldsParts(toks, pos, [OpenBrace] + FlatMembers(ms), [CloseBrace]);
    case Array(items) =>
      ItemsAreThere(toks, pos + 1, depth + 1);
      HoldsOne(toks, pos, OpenBracket);
      HoldsOne(toks, pos + 1 + |FlatItems(items)|, CloseBracket);
      HoldsParts(toks, pos, [OpenBracket], FlatItems(items));
      HoldsParts(toks, pos, [OpenBracket] + FlatItems(items), [CloseBracket]);
    case _ => HoldsOne(toks, pos, toks[pos]);
  }

  lemma {:induction false} MembersAreThere(toks: seq<Symbol>, pos: nat, depth: nat)
    requires pos <= |toks| && ParseMembers(toks, pos, depth).Read?
    ensures var r := ParseMembers(toks, pos, depth);
            && Holds(toks, pos, FlatMembers(r.value)) && r.next == pos + |FlatMembers(r.value)| + 1
            && toks[r.next - 1] == CloseBrace && ShallowMembers(r.value, depth)
    decreases |toks| - pos, 2
  {
    hide Holds;
    var ms := ParseMembers(toks, pos, depth).value;
    match ms
    case NoMembers => HoldsNone(toks, pos);
    case Member(k, v, rest) =>
      ReadIsThere(toks, pos + 1, depth);
      MembersAreThere(toks, ParseValue(toks, pos + 1, depth).next, depth);
      HoldsOne(toks, pos, Text(k));
      HoldsParts(toks, pos, [Text(k)], Flat(v));
      HoldsParts(toks, pos, [Text(k)] + Flat(v), FlatMembers(rest));
  }

  lemma {:induction false} ItemsAreThere(toks: seq<Symbol>, pos: nat, depth: nat)
    requires pos <= |toks| && ParseItems(toks, pos, depth).Read?
    ensures var r := ParseItems(toks, pos, depth);
            && Holds(toks, pos, FlatItems(r.value)) && r.next == pos + |FlatItems(r.value)| + 1
            && toks[r.next - 1] == CloseBracket && ShallowItems(r.value, depth)
    decreases |toks| - pos, 2
  {
    hide Holds;
    var items := ParseItems(toks, pos, depth).value;
    match items
    case NoItems => HoldsNone(toks, pos);
    case Item(v, others) =>
      ReadIsThere(toks, pos, depth);
      ItemsAreThere(toks, ParseValue(toks, pos, depth).next, depth);
      HoldsParts(toks, pos, Flat(v), FlatItems(others));
  }

  // ----- the rewriter -----

  predicate Touched(j: Json, depth: nat, key: string) {
    match j
    case Object(ms) => TouchedMembers(ms, depth + 1)
    case Array(items) => TouchedItems(items, depth + 1)
    case Str(s) => NewText(s, depth, key).Some?
    case _ => false
  }

  predicate TouchedMembers(ms: Members, depth: nat) {
    match ms
    case NoMembers => false
    case Member(k, v, rest) => Touched(v, depth, k) || TouchedMembers(rest, depth)
  }

  predicate TouchedItems(items: Items, depth: nat) {
    match items
    case NoItems => false
    case Item(v, others) => Touched(v, depth, "") || TouchedItems(others, depth)
  }

  lemma {:induction false} TouchedMeansChanged(j: Json, depth: nat, key: string)
    ensures Touched(j, depth, key) <==> Rewritten(j, depth, key) != j
  {
    match j
    case Object(ms) => MembersChanged(ms, depth + 1);
    case Array(items) => ItemsChanged(items, depth + 1);
    case Str(s) => if NewText(s, depth, key).Some? { IdChanges(s, depth, key); }
    case _ =>
  }

  lemma {:induction false} MembersChanged(ms: Members, depth: nat)
    ensures TouchedMembers(ms, depth) <==> RewrittenMembers(ms, depth) != ms
  {
    match ms
    case NoMembers =>
    case Member(k, v, rest) =>
      TouchedMeansChanged(v, depth, k);
      MembersChanged(rest, depth);
  }

  lemma {:induction false} ItemsChanged(items: Items, depth: nat)
    ensures TouchedItems(items, depth) <==> RewrittenItems(items, depth) != items
  {
    match items
    case NoItems =>
    case Item(v, others) =>
      TouchedMeansChanged(v, depth, "");
      ItemsChanged(others, depth);
  }

  function AddMember(done: Members, k: string, v: Json): Members {
    match done
    case NoMembers => Member(k, v, NoMembers)
    case Member(k0, v0, rest) => Member(k0, v0, AddMember(rest, k, v))
  }

  function JoinMembers(done: Members, more: Members): Members {
    match done
    case NoMembers => more
    case Member(k, v, rest) => Member(k, v, JoinMembers(rest, more))
  }

  /** The whole object, when its first members are done and the rest reads as given. */
  function AfterMembers(done: Members, rest: Parsed<Members>): Parsed<Members> {
    if rest.Read? then Read(JoinMembers(done, rest.value), rest.next) else rest
  }

  lemma {:induction false} AddThenJoin(done: Members, k: string, v: Json, more: Members)
    ensures JoinMembers(AddMember(done, k, v), more) == JoinMembers(done, Member(k, v, more))
  {
    if done.Member? { AddThenJoin(done.rest, k, v, more); }
  }

  lemma {:induction false} JoinNone(done: Members)
    ensures JoinMembers(done, NoMembers) == done
  {
    if done.Member? { JoinNone(done.rest); }
  }

  lemma {:induction false} PrintOneMore(done: Members, k: string, v: Json, depth: nat, first: bool)
    ensures PrintMembers(RewrittenMembers(AddMember(done, k, v), depth), first) ==
            PrintMembers(RewrittenMembers(done, depth), first)
            + (if first && done.NoMembers? then [] else [Comma]) + [Text(k), Colon] + Print(Rewritten(v, depth, k))
    ensures TouchedMembers(AddMember(done, k, v), depth) <==> TouchedMembers(done, depth) || Touched(v, depth, k)
  {
    hide Print, Rewritten, Touched;
    if done.Member? { PrintOneMore(done.rest, k, v, depth, false); }
  }

  function AddItem(done: Items, v: Json): Items {
    match done
    case NoItems => Item(v, NoItems)
    case Item(v0, others) => Item(v0, AddItem(others, v))
  }

  function JoinItems(done: Items, more: Items): Items {
    match done
    case NoItems => more
    case Item(v, others) => Item(v, JoinItems(others, more))
  }

  function AfterItems(done: Items, rest: Parsed<Items>): Parsed<Items> {
    if rest.Read? then Read(JoinItems(done, rest.value), rest.next) else rest
  }

  lemma {:induction false} AddThenJoinItems(done: Items, v: Json, more: Items)
    ensures JoinItems(AddItem(done, v), more) == JoinItems(done, Item(v, more))
  {
    if done.Item? { AddThenJoinItems(done.others, v, more); }
  }

  lemma {:induction false} JoinNoItems(done: Items)
    ensures JoinItems(done, NoItems) == done
  {
    if done.Item? { JoinNoItems(done.others); }
  }

  lemma {:induction false} PrintOneItemMore(done: Items, v: Json, depth: nat, first: bool)
    ensures PrintItems(RewrittenItems(AddItem(done, v), depth), first) ==
            PrintItems(RewrittenItems(done, depth), first)
            + (if first && done.NoItems? then [] else [Comma]) + Print(Rewritten(v, depth, ""))
    ensures TouchedItems(AddItem(done, v), depth) <==> TouchedItems(done, depth) || Touched(v, depth, "")
  {
    hide Print, Rewritten, Touched;
    if done.Item? { PrintOneItemMore(done.others, v, depth, false); }
  }

  /** One more member: the whole object is its value's error, or goes on after it. */
  lemma MembersStep(toks: seq<Symbol>, start: nat, pos: nat, depth: nat, done: Members, key: string)
    requires start <= pos < |toks| && toks[pos] == Text(key)
    requires ParseMembers(toks, start, depth) == AfterMembers(done, ParseMembers(toks, pos, depth))
    ensures var r := ParseValue(toks, pos + 1, depth);
            ParseMembers(toks, start, depth) ==
            if r.TooDeep? then TooDeep else if r.Malformed? then Malformed
            else AfterMembers(AddMember(done, key, r.value), ParseMembers(toks, r.next, depth))
  {
    var r := ParseValue(toks, pos + 1, depth);
    if r.Read? && ParseMembers(toks, r.next, depth).Read? {
      AddThenJoin(done, key, r.value, ParseMembers(toks, r.next, depth).value);
    }
  }

  lemma MembersStop(toks: seq<Symbol>, pos: nat, depth: nat)
    requires pos <= |toks| && (pos == |toks| || !toks[pos].Text?)
    ensures ParseMembers(toks, pos, depth) ==
            if pos < |toks| && toks[pos].CloseBrace? then Read(NoMembers, pos + 1) else Malformed
  {
  }

  lemma ItemsStep(toks: seq<Symbol>, start: nat, pos: nat, depth: nat, done: Items)
    requires start <= pos < |toks| && !toks[pos].CloseBracket?
    requires ParseItems(toks, start, depth) == AfterItems(done, ParseItems(toks, pos, depth))
    ensures var r := ParseValue(toks, pos, depth);
            ParseItems(toks, start, depth) ==
            if r.TooDeep? then TooDeep else if r.Malformed? then Malformed
            else AfterItems(AddItem(done, r.value), ParseItems(toks, r.next, depth))
  {
    var r := ParseValue(toks, pos, depth);
    if r.Read? && ParseItems(toks, r.next, depth).Read? {
      AddThenJoinItems(done, r.value, ParseItems(toks, r.next, depth).value);
    }
  }

  lemma ItemsStop(toks: seq<Symbol>, pos: nat, depth: nat)
    requires pos <= |toks| && (pos == |toks| || toks[pos].CloseBracket? || toks[pos].CloseBrace?)
    ensures ParseItems(toks, pos, depth) ==
            if pos < |toks| && toks[pos].CloseBracket? then Read(NoItems, pos + 1) else Malformed
  {
  }

  lemma NothingThere(toks: seq<Symbol>, depth: nat)
    ensures ParseValue(toks, |toks|, depth).Malformed?
  {
  }

  /** A container read at pos, by what its elements read as. */
  lemma ContainerRead(toks: seq<Symbol>, pos: nat, depth: nat)
    requires pos < |toks|
    ensures toks[pos].OpenBrace? ==> ParseValue(toks, pos, depth) == AsObject(toks, pos, depth)
    ensures toks[pos].OpenBracket? ==> ParseValue(toks, pos, depth) == AsArray(toks, pos, depth)
  {
  }

  function AsObject(toks: seq<Symbol>, pos: nat, depth: nat): Parsed<Json>
    requires pos < |toks|
  {
    var r := ParseMembers(toks, pos + 1, depth + 1);
    if depth > MAX_WALK_DEPTH || r.TooDeep? then TooDeep
    else if r.Malformed? then Malformed
    else Read(Object(r.value), r.next)
  }

  function AsArray(toks: seq<Symbol>, pos: nat, depth: nat): Parsed<Json>
    requires pos < |toks|
  {
    var r := ParseItems(toks, pos + 1, depth + 1);
    if depth > MAX_WALK_DEPTH || r.TooDeep? then TooDeep
    else if r.Malformed? then Malformed
    else Read(Array(r.value), r.next)
  }

  datatype Error = Fine | Deep | Unexpected

  class Rewriter {
    const toks: seq<Symbol>
    var pos: nat
    var out: seq<Symbol>
    var changed: bool

    constructor (toks: seq<Symbol>)
      ensures this.toks == toks && pos == 0 && out == [] && !changed
    {
      this.toks := toks;
      pos, out, changed := 0, [], false;
    }

    /** What a call has done, by what the stream holds. */
    ghost predicate Wrote(parsed: Parsed<Json>, err: Error, depth: nat, key: string, out0: seq<Symbol>, changed0: bool)
      reads this
    {
      match parsed
      case Read(j, next) =>
        && err.Fine? && pos == next && out == out0 + Print(Rewritten(j, depth, key))
        && changed == (changed0 || Touched(j, depth, key))
      case TooDeep => err.Deep?
      case Malformed => err.Unexpected?
    }

    /** Another element before the closing bracket. */
    predicate More()
      requires pos <= |toks|
      reads this
    {
      pos < |toks| && !toks[pos].CloseBrace? && !toks[pos].CloseBracket?
    }

    method Value(depth: nat) returns (err: Error)
      requires pos <= |toks|
      modifies this
      decreases |toks| - pos, 0
      ensures old(pos) <= pos <= |toks| && Wrote(ParseValue(toks, old(pos), depth), err, depth, "", old(out), old(changed))
    {
      if pos == |toks| {
        return Unexpected;
      }
      pos := pos + 1;
      err := ValueFrom(toks[pos - 1], depth, "");
    }

    method ValueFrom(tok: Symbol, depth: nat, key: string) returns (err: Error)
      requires 0 < pos <= |toks| && toks[pos - 1] == tok
      modifies this
      decreases |toks| - pos, 3
      ensures old(pos) <= pos <= |toks|
      ensures Wrote(ParseValue(toks, old(pos) - 1, depth), err, depth, key, old(out), old(changed))
    {
      match tok
      case OpenBrace => err := WriteObject(depth, key);
      case OpenBracket => err := WriteArray(depth, key);
      case Text(s) =>
        err := Fine;
        if IdLength(key).Some? && depth <= MAX_ID_DEPTH {
          var b64 := HexIdToBase64(s, IdLength(key).value);
          if b64.Some? {
            changed := true;
            out := out + [Text(b64.value)];
            return;
          }
        }
        out := out + [Text(s)];
      case Number(_) =>
        out := out + [tok];
        err := Fine;
      case Truth(_) =>
        out := out + [tok];
        err := Fine;
      case Null =>
        out := out + [tok];
        err := Fine;
      case _ => err := Unexpected;
    }

    /** How far an object has been copied: its first members are done. */
    ghost predicate MembersSoFar(start: nat, done: Members, d: nat, out0: seq<Symbol>, changed0: bool)
      reads this
    {
      && start <= pos <= |toks|
      && ParseMembers(toks, start, d) == AfterMembers(done, ParseMembers(toks, pos, d))
      && out == out0 + [OpenBrace] + PrintMembers(RewrittenMembers(done, d), true)
      && changed == (changed0 || TouchedMembers(done, d))
    }

    ghost predicate Failed<T>(parsed: Parsed<T>, err: Error) {
      (parsed.TooDeep? && err.Deep?) || (parsed.Malformed? && err.Unexpected?)
    }

    method WriteMember(first: bool, d: nat, ghost start: nat, ghost done: Members, ghost out0: seq<Symbol>, ghost changed0: bool)
      returns (err: Error, ghost done': Members)
      requires MembersSoFar(start, done, d, out0, changed0) && (first <==> done.NoMembers?) && More()
      modifies this
      decreases |toks| - pos, 1
      ensures old(pos) < pos <= |toks|
      ensures err.Fine? ==> MembersSoFar(start, done', d, out0, changed0) && done'.Member?
      ensures !err.Fine? ==> Failed(ParseMembers(toks, start, d), err)
    {
      hide ParseValue, ParseMembers, PrintMembers, RewrittenMembers, TouchedMembers, Print, Rewritten, Touched;
      done' := done;
      var tok := toks[pos];
      if !tok.Text? {
        MembersStop(toks, pos, d);
        pos := pos + 1;
        return Unexpected, done';
      }
      MembersStep(toks, start, pos, d, done, tok.s);
      NothingThere(toks, d);
      pos := pos + 1;
      if !first {
        out := out + [Comma];
      }
      out := out + [tok, Colon];
      if pos == |toks| {
        return Unexpected, done';
      }
      pos := pos + 1;
      err := ValueFrom(toks[pos - 1], d, tok.s);
      if err.Fine? {
        ghost var v := ParseValue(toks, old(pos) + 1, d).value;
        PrintOneMore(done, tok.s, v, d, true);
        done' := AddMember(done, tok.s, v);
      }
    }

    method WriteObject(depth: nat, ghost key: string) returns (err: Error)
      requires 0 < pos <= |toks| && toks[pos - 1].OpenBrace?
      modifies this
      decreases |toks| - pos, 2
      ensures old(pos) <= pos <= |toks|
      ensures Wrote(ParseValue(toks, old(pos) - 1, depth), err, depth, key, old(out), old(changed))
    {
      ContainerRead(toks, pos - 1, depth);
      hide ParseValue, ParseMembers;
      if depth > MAX_WALK_DEPTH {
        return Deep;
      }
      out := out + [OpenBrace];
      var first := true;
      ghost var done, start := NoMembers, pos;
      while More()
        invariant old(pos) == start <= pos <= |toks| && (first <==> done.NoMembers?)
        invariant MembersSoFar(start, done, depth + 1, old(out), old(changed))
        decreases |toks| - pos
      {
        err, done := WriteMember(first, depth + 1, start, done, old(out), old(changed));
        first := false;
        if !err.Fine? {
          return;
        }
      }
      MembersStop(toks, pos, depth + 1);
      if pos == |toks| || !toks[pos].CloseBrace? {
        return Unexpected;
      }
      pos := pos + 1;
      JoinNone(done);
      out := out + [CloseBrace];
      err := Fine;
    }

    ghost predicate ItemsSoFar(start: nat, done: Items, d: nat, out0: seq<Symbol>, changed0: bool)
      reads this
    {
      && start <= pos <= |toks|
      && ParseItems(toks, start, d) == AfterItems(done, ParseItems(toks, pos, d))
      && out == out0 + [OpenBracket] + PrintItems(RewrittenItems(done, d), true)
      && changed == (changed0 || TouchedItems(done, d))
    }

    method WriteItem(first: bool, d: nat, ghost start: nat, ghost done: Items, ghost out0: seq<Symbol>, ghost changed0: bool)
      returns (err: Error, ghost done': Items)
      requires ItemsSoFar(start, done, d, out0, changed0) && (first <==> done.NoItems?) && More()
      modifies this
      decreases |toks| - pos, 1
      ensures old(pos) <= pos <= |toks|
      ensures err.Fine? ==> old(pos) < pos && ItemsSoFar(start, done', d, out0, changed0) && done'.Item?
      ensures !err.Fine? ==> Failed(ParseItems(toks, start, d), err)
    {
      done' := done;
      ItemsStep(toks, start, pos, d, done);
      hide ParseValue, ParseItems;
      if !first {
        out := out + [Comma];
      }
      err := Value(d);
      if err.Fine? {
        ghost var v := ParseValue(toks, old(pos), d).value;
        PrintOneItemMore(done, v, d, true);
        done' := AddItem(done, v);
      }
    }

    method WriteArray(depth: nat, ghost key: string) returns (err: Error)
      requires 0 < pos <= |toks| && toks[pos - 1].OpenBracket?
      modifies this
      decreases |toks| - pos, 2
      ensures old(pos) <= pos <= |toks|
      ensures Wrote(ParseValue(toks, old(pos) - 1, depth), err, depth, key, old(out), old(changed))
    {
      ContainerRead(toks, pos - 1, depth);
      hide ParseValue, ParseItems;
      if depth > MAX_WALK_DEPTH {
        return Deep;
      }
      out := out + [OpenBracket];
      var first := true;
      ghost var done, start := NoItems, pos;
      while More()
        invariant old(pos) == start <= pos <= |toks| && (first <==> done.NoItems?)
        invariant ItemsSoFar(start, done, depth + 1, old(out), old(changed))
        decreases |toks| - pos
      {
        err, done := WriteItem(first, depth + 1, start, done, old(out), old(changed));
        first := false;
        if !err.Fine? {
          return;
        }
      }
      ItemsStop(toks, pos, depth + 1);
      if pos == |toks| || !toks[pos].CloseBracket? {
        return Unexpected;
      }
      pos := pos + 1;
      JoinNoItems(done);
      out := out + [CloseBracket];
      err := Fine;
    }
  }

  lemma {:induction false} StaysShallow(j: Json, depth: nat, at: nat, key: string)
    ensures Shallow(Rewritten(j, at, key), depth) <==> Shallow(j, depth)
  {
    match j
    case Object(ms) => MembersStayShallow(ms, depth + 1, at + 1);
    case Array(items) => ItemsStayShallow(items, depth + 1, at + 1);
    case _ =>
  }

  lemma {:induction false} MembersStayShallow(ms: Members, depth: nat, at: nat)
    ensures ShallowMembers(RewrittenMembers(ms, at), depth) <==> ShallowMembers(ms, depth)
  {
    match ms
    case NoMembers =>
    case Member(k, v, rest) =>
      StaysShallow(v, depth, at, k);
      MembersStayShallow(rest, depth, at);
  }

  lemma {:induction false} ItemsStayShallow(items: Items, depth: nat, at: nat)
    ensures ShallowItems(RewrittenItems(items, at), depth) <==> ShallowItems(items, depth)
  {
    match items
    case NoItems =>
    case Item(v, others) =>
      StaysShallow(v, depth, at, "");
      ItemsStayShallow(others, depth, at);
  }

  // ----- the decoder, which swallows the punctuation and checks it -----

  /** What may come next, as encoding/json keeps it. */
  datatype Expect =
    | Top | ArrayStart | ArrayValue | ArrayComma | ObjectStart | ObjectKey | ObjectColon | ObjectValue | ObjectComma

  /** With what was expected where each open container began. */
  datatype Reader = Reader(next: Expect, outer: seq<Expect>)

  const START := Reader(Top, [])

  predicate ValueAllowed(x: Expect) {
    x.Top? || x.ArrayStart? || x.ArrayValue? || x.ObjectValue?
  }

  function AfterValue(x: Expect): Expect {
    if x.ArrayStart? || x.ArrayValue? then ArrayComma else if x.ObjectValue? then ObjectComma else x
  }

  function Opened(r: Reader, inside: Expect): Option<Reader> {
    if ValueAllowed(r.next) then Some(Reader(inside, r.outer + [r.next])) else None
  }

  function Closed(r: Reader, empty: Expect, full: Expect): Option<Reader> {
    if (r.next == empty || r.next == full) && r.outer != [] then
      Some(Reader(AfterValue(r.outer[|r.outer| - 1]), r.outer[..|r.outer| - 1]))
    else None
  }

  /** One symbol on, or a syntax error. */
  function Move(r: Reader, x: Symbol): Option<Reader> {
    match x
    case OpenBrace => Opened(r, ObjectStart)
    case OpenBracket => Opened(r, ArrayStart)
    case CloseBrace => Closed(r, ObjectStart, ObjectComma)
    case CloseBracket => Closed(r, ArrayStart, ArrayComma)
    case Colon => if r.next.ObjectColon? then Some(r.(next := ObjectValue)) else None
    case Comma =>
      if r.next.ArrayComma? then Some(r.(next := ArrayValue))
      else if r.next.ObjectComma? then Some(r.(next := ObjectKey)) else None
    case Junk => None
    case _ =>
      if x.Text? && (r.next.ObjectStart? || r.next.ObjectKey?) then Some(r.(next := ObjectColon))
      else if ValueAllowed(r.next) then Some(r.(next := AfterValue(r.next))) else None
  }

  /** The tokens up to the first syntax error, and whether the body ends without one. */
  datatype Decoded = Decoded(toks: seq<Symbol>, ends: bool)

  function Before(toks: seq<Symbol>, d: Decoded): Decoded { Decoded(toks + d.toks, d.ends) }

  /** The decoder hands out all symbols but these. */
  predicate Punctuation(x: Symbol) { x.Comma? || x.Colon? }

  function Scan(text: seq<Symbol>, r: Reader): Decoded {
    if text == [] then Decoded([], r == START)
    else
      var r' := Move(r, text[0]);
      if r'.None? then Decoded([], false)
      else Before(if Punctuation(text[0]) then [] else [text[0]], Scan(text[1..], r'.value))
  }

  function Decode(text: seq<Symbol>): Decoded { Scan(text, START) }

  lemma ScanOne(x: Symbol, rest: seq<Symbol>, r: Reader)
    requires Move(r, x).Some?
    ensures Scan([x] + rest, r) == Before(if Punctuation(x) then [] else [x], Scan(rest, Move(r, x).value))
  {
    assert ([x] + rest)[1..] == rest;
  }

  lemma BeforeBefore(a: seq<Symbol>, b: seq<Symbol>, d: Decoded)
    ensures Before(a, Before(b, d)) == Before(a + b, d) && Before([], d) == d
  {
  }

  lemma MovesOver(r: Reader, x: Symbol)
    requires ValueAllowed(r.next) && (x.Text? || x.Number? || x.Truth? || x.Null?)
    ensures Move(r, x) == Some(r.(next := AfterValue(r.next)))
  {
  }

  /** Into a container and, from its start or after an element, out of it. */
  lemma MovesIn(r: Reader, open: Symbol, empty: Expect, close: Symbol, full: Expect)
    requires ValueAllowed(r.next)
    requires (open, empty, close, full) in {(OpenBrace, ObjectStart, CloseBrace, ObjectComma),
                                            (OpenBracket, ArrayStart, CloseBracket, ArrayComma)}
    ensures Move(r, open).Some? && Move(r, open).value.next == empty
    ensures var inside := Move(r, open).value;
            && Move(inside, close) == Some(r.(next := AfterValue(r.next)))
            && Move(inside.(next := full), close) == Some(r.(next := AfterValue(r.next)))
  {
    assert (r.outer + [r.next])[..|r.outer|] == r.outer;
  }

  /** Where a value may stand, a printed one is scanned to its tokens and nothing else. */
  lemma {:induction false} ScansPrinted(j: Json, rest: seq<Symbol>, r: Reader)
    requires ValueAllowed(r.next)
    ensures Scan(Print(j) + rest, r) == Before(Flat(j), Scan(rest, r.(next := AfterValue(r.next))))
    decreases j, 0
  {
    hide Scan, Move, Before;
    var after := Scan(rest, r.(next := AfterValue(r.next)));
    match j
    case Object(ms) =>
      MovesIn(r, OpenBrace, ObjectStart, CloseBrace, ObjectComma);
      var inside := Move(r, OpenBrace).value;
      var tail := [CloseBrace] + rest;
      assert Print(j) + rest == [OpenBrace] + (PrintMembers(ms, true) + tail);
      ScanOne(OpenBrace, PrintMembers(ms, true) + tail, r);
      ScansMembers(ms, tail, inside, true);
      ScanOne(CloseBrace, rest, if ms.NoMembers? then inside else inside.(next := ObjectComma));
      BeforeBefore(FlatMembers(ms), [CloseBrace], after);
      BeforeBefore([OpenBrace], FlatMembers(ms) + [CloseBrace], after);
      assert Flat(j) == [OpenBrace] + (FlatMembers(ms) + [CloseBrace]);
    case Array(items) =>
      MovesIn(r, OpenBracket, ArrayStart, CloseBracket, ArrayComma);
      var inside := Move(r, OpenBracket).value;
      var tail := [CloseBracket] + rest;
      assert Print(j) + rest == [OpenBracket] + (PrintItems(items, true) + tail);
      ScanOne(OpenBracket, PrintItems(items, true) + tail, r);
      ScansItems(items, tail, inside, true);
      ScanOne(CloseBracket, rest, if items.NoItems? then inside else inside.(next := ArrayComma));
      BeforeBefore(FlatItems(items), [CloseBracket], after);
      BeforeBefore([OpenBracket], FlatItems(items) + [CloseBracket], after);
      assert Flat(j) == [OpenBracket] + (FlatItems(items) + [CloseBracket]);
    case _ =>
      MovesOver(r, Print(j)[0]);
      ScanOne(Print(j)[0], rest, r);
  }

  lemma {:induction false} ScansMembers(ms: Members, rest: seq<Symbol>, r: Reader, first: bool)
    requires r.next == if first then ObjectStart else ObjectComma
    ensures Scan(PrintMembers(ms, first) + rest, r) ==
            Before(FlatMembers(ms), Scan(rest, if ms.NoMembers? then r else r.(next := ObjectComma)))
    decreases ms, 1
  {
    hide Scan, Print, Flat, Before;
    var after := Scan(rest, r.(next := ObjectComma));
    match ms
    case NoMembers =>
      assert PrintMembers(ms, first) + rest == rest;
      BeforeBefore([], [], Scan(rest, r));
    case Member(k, v, more) =>
      var tail := PrintMembers(more, false) + rest;
      var named := [Text(k)] + ([Colon] + (Print(v) + tail));
      var key := if first then r else r.(next := ObjectKey);
      if first {
        assert PrintMembers(ms, first) + rest == named;
      } else {
        assert PrintMembers(ms, first) + rest == [Comma] + named;
        ScanOne(Comma, named, r);
      }
      ScanOne(Text(k), [Colon] + (Print(v) + tail), key);
      ScanOne(Colon, Print(v) + tail, r.(next := ObjectColon));
      ScansPrinted(v, tail, r.(next := ObjectValue));
      ScansMembers(more, rest, r.(next := ObjectComma), false);
      BeforeBefore(Flat(v), FlatMembers(more), after);
      BeforeBefore([Text(k)], Flat(v) + FlatMembers(more), after);
      BeforeBefore([], [], Scan(named, key));
      BeforeBefore([], [], Scan(Print(v) + tail, r.(next := ObjectValue)));
      assert FlatMembers(ms) == [Text(k)] + (Flat(v) + FlatMembers(more));
  }

  lemma {:induction false} ScansItems(items: Items, rest: seq<Symbol>, r: Reader, first: bool)
    requires r.next == if first then ArrayStart else ArrayComma
    ensures Scan(PrintItems(items, first) + rest, r) ==
            Before(FlatItems(items), Scan(rest, if items.NoItems? then r else r.(next := ArrayComma)))
    decreases items, 1
  {
    hide Scan, Print, Flat, Before;
    match items
    case NoItems =>
      assert PrintItems(items, first) + rest == rest;
      BeforeBefore([], [], Scan(rest, r));
    case Item(v, others) =>
      var tail := PrintItems(others, false) + rest;
      if first {
        assert PrintItems(items, first) + rest == Print(v) + tail;
        ScansPrinted(v, tail, r);
      } else {
        assert PrintItems(items, first) + rest == [Comma] + (Print(v) + tail);
        ScanOne(Comma, Print(v) + tail, r);
        ScansPrinted(v, tail, r.(next := ArrayValue));
      }
      ScansItems(others, rest, r.(next := ArrayComma), false);
      BeforeBefore(Flat(v), FlatItems(others), Scan(rest, r.(next := ArrayComma)));
      BeforeBefore([], [], Scan(Print(v) + tail, r.(next := ArrayValue)));
  }

  /** What is printed is read back as the tokens it was printed from. */
  lemma PrintedReadsBack(j: Json)
    ensures Decode(Print(j)) == Decoded(Flat(j), true)
  {
    ScansPrinted(j, [], START);
    assert Print(j) + [] == Print(j);
  }

  /** A symbol other than punctuation is handed out. */
  lemma TokenIsFirst(text: seq<Symbol>, r: Reader)
    requires text != [] && Scan(text, r).ends
    ensures !Punctuation(text[0]) ==> Scan(text, r).toks != [] && Scan(text, r).toks[0] == text[0]
    ensures var toks := Scan(text, r).toks;
            && Move(r, text[0]).Some?
            && Scan(text[1..], Move(r, text[0]).value) == Decoded(if Punctuation(text[0]) then toks else toks[1..], true)
  {
  }

  /** After punctuation comes a token, and not the bracket that could have stood there instead. */
  lemma PunctuationIsForced(text: seq<Symbol>, r: Reader)
    requires text != [] && Punctuation(text[0]) && Scan(text, r).ends
    ensures var toks := Scan(text, r).toks; toks != [] && !toks[0].CloseBracket? && !toks[0].CloseBrace?
  {
    var r' := Move(r, text[0]).value;
    assert Scan(text[1..], r').ends && text[1..] != [];
    TokenIsFirst(text[1..], r');
  }

  /** Where punctuation may stand, it is that one, or else a closing bracket. */
  lemma OnePunctuation(r: Reader, x: Symbol, y: Symbol)
    requires Punctuation(x) && Move(r, x).Some? && Move(r, y).Some?
    ensures y == x || y.CloseBracket? || y.CloseBrace?
  {
  }

  lemma SameFirst(a: seq<Symbol>, b: seq<Symbol>, r: Reader)
    requires a != [] && b != [] && Scan(a, r).ends && Scan(a, r) == Scan(b, r)
    ensures a[0] == b[0]
  {
    hide Scan, Move;
    TokenIsFirst(a, r);
    TokenIsFirst(b, r);
    if Punctuation(a[0]) {
      PunctuationIsForced(a, r);
      OnePunctuation(r, a[0], b[0]);
    } else if Punctuation(b[0]) {
      PunctuationIsForced(b, r);
      OnePunctuation(r, b[0], a[0]);
    }
  }

  lemma NothingHandedOut(a: seq<Symbol>, r: Reader)
    requires Scan(a, r).ends && Scan(a, r) == Scan([], r)
    ensures a == []
  {
    if a != [] {
      TokenIsFirst(a, r);
      if Punctuation(a[0]) { PunctuationIsForced(a, r); }
    }
  }

  /** The punctuation of a body is fixed by its tokens. */
  lemma {:induction false} OneTextPerTokens(a: seq<Symbol>, b: seq<Symbol>, r: Reader)
    requires Scan(a, r).ends && Scan(a, r) == Scan(b, r)
    ensures a == b
  {
    hide Scan, Move;
    if a != [] && b != [] {
      SameFirst(a, b, r);
      TokenIsFirst(a, r);
      TokenIsFirst(b, r);
      OneTextPerTokens(a[1..], b[1..], Move(r, a[0]).value);
      assert a == [a[0]] + a[1..] && b == [b[0]] + b[1..];
    } else {
      NothingHandedOut(if a == [] then b else a, r);
    }
  }

  // ----- the whole body -----

  /** The body as it came, a rewritten one, or the refusal of one nested too deep. */
  datatype Answer = AsItCame | Replaced(out: seq<Symbol>) | Refused

  ghost predicate Answers(text: seq<Symbol>, a: Answer) {
    var d := Decode(text);
    var r := ParseValue(d.toks, 0, 0);
    a == if r.TooDeep? then Refused
         else if r.Malformed? || r.next != |d.toks| || !d.ends || !Touched(r.value, 0, "") then AsItCame
         else Replaced(Print(Rewritten(r.value, 0, "")))
  }

  method HexIds(text: seq<Symbol>) returns (a: Answer)
    ensures Answers(text, a)
  {
    hide ParseValue;
    var d := Decode(text);
    var w := new Rewriter(d.toks);
    var err := w.Value(0);
    if err.Deep? {
      return Refused;
    }
    if !err.Fine? || w.pos != |d.toks| || !d.ends || !w.changed {
      return AsItCame;
    }
    a := Replaced(w.out);
  }

  /** A body reads as the tree j and nothing more. */
  ghost predicate ReadsAs(text: seq<Symbol>, j: Json) {
    var d := Decode(text);
    d.ends && ParseValue(d.toks, 0, 0) == Read(j, |d.toks|)
  }

  /** The bodies that read as a tree are its printed form, if it is not too deep. */
  lemma ReadsAsPrinted(text: seq<Symbol>, j: Json)
    ensures ReadsAs(text, j) <==> text == Print(j) && Shallow(j, 0)
  {
    hide Scan, Print, Flat;
    PrintedReadsBack(j);
    assert Flat(j)[0..0 + |Flat(j)|] == Flat(j);
    ReadsDocument(j, Flat(j), 0, 0);
    if ReadsAs(text, j) {
      var toks := Decode(text).toks;
      ReadIsThere(toks, 0, 0);
      assert toks[0..0 + |Flat(j)|] == toks;
      OneTextPerTokens(text, Print(j), START);
    }
  }

  /** A document comes out as one that reads as the same tree with its ids re-encoded, and
      is refused, never half rewritten, exactly when it is nested too deep. */
  lemma DocumentIsRewritten(j: Json, a: Answer)
    requires Answers(Print(j), a)
    ensures a.Refused? <==> !Shallow(j, 0)
    ensures a.Replaced? <==> Shallow(j, 0) && Rewritten(j, 0, "") != j
    ensures a.Replaced? ==> ReadsAs(a.out, Rewritten(j, 0, ""))
  {
    PrintedReadsBack(j);
    assert Flat(j)[0..0 + |Flat(j)|] == Flat(j);
    ReadsDocument(j, Flat(j), 0, 0);
    TouchedMeansChanged(j, 0, "");
    StaysShallow(j, 0, 0, "");
    hide Print, Flat, Scan, ParseValue;
    if a.Replaced? { ReadsAsPrinted(a.out, Rewritten(j, 0, "")); }
  }

  /** Nothing else is rewritten, and what goes out reads as the rewritten tree. */
  lemma OnlyDocumentsAreRewritten(text: seq<Symbol>, a: Answer) returns (j: Json)
    requires Answers(text, a) && a.Replaced?
    ensures text == Print(j) && ReadsAs(text, j) && ReadsAs(a.out, Rewritten(j, 0, "")) && Rewritten(j, 0, "") != j
  {
    j := ParseValue(Decode(text).toks, 0, 0).value;
    ReadsAsPrinted(text, j);
    StaysShallow(j, 0, 0, "");
    TouchedMeansChanged(j, 0, "");
    ReadsAsPrinted(a.out, Rewritten(j, 0, ""));
  }

  /** A rewritten body, sent again, comes back as it came. */
  lemma RewritingAgain(text: seq<Symbol>, a: Answer, again: Answer)
    requires Answers(text, a) && a.Replaced? && Answers(a.out, again)
    ensures again.AsItCame?
  {
    var j := OnlyDocumentsAreRewritten(text, a);
    var j' := Rewritten(j, 0, "");
    ReadsAsPrinted(a.out, j');
    RewritingTwice(j, 0, "");
    hide Scan, ParseValue, Shallow, Rewritten;
    DocumentIsRewritten(j', again);
  }
}
