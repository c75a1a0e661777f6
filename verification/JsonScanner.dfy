/** The brace scanner of `extract_json_object`, against the grammar of RFC 8259.

    The scanner works on bytes. The four characters it looks for are ASCII and never occur
    inside the encoding of another character, so it is modelled on characters. */
module JsonScanner {
  import opened Text

  // ---------------------------------------------------------------- the scanner

  datatype State = State(depth: nat, inString: bool, escape: bool)

  function Step(st: State, c: char): State
    requires st.depth > 0
  {
    if st.inString then
      if st.escape then st.(escape := false)
      else if c == '\\' then st.(escape := true)
      else if c == '"' then st.(inString := false)
      else st
    else if c == '"' then st.(inString := true)
    else if c == '{' then st.(depth := st.depth + 1)
    else if c == '}' then st.(depth := st.depth - 1)
    else st
  }

  /** Where the depth reaches zero, when the scan goes on at `i` in state `st`. */
  function Closing(text: string, i: nat, st: State): (r: Option<nat>)
    requires i <= |text| && st.depth > 0
    ensures r.Some? ==> i < r.value <= |text|
    decreases |text| - i
  {
    if i == |text| then None else
      var next := Step(st, text[i]);
      if next.depth == 0 then Some(i + 1) else Closing(text, i + 1, next)
  }

  const OPENED := State(1, false, false)

  datatype Range = Range(lo: nat, hi: nat)

  /** Where the scanner finds an object. */
  function ObjectRange(text: string): (r: Option<Range>)
    ensures r.Some? ==> r.value.lo < r.value.hi <= |text| && r.value.lo == IndexOf(text, '{')
  {
    var start := IndexOf(text, '{');
    if start == |text| then None else
      match Closing(text, start + 1, OPENED)
      case None => None
      case Some(end) => Some(Range(start, end))
  }

  /** The text handed to the JSON parser. */
  function ObjectSlice(text: string): Option<string> {
    match ObjectRange(text)
    case None => None
    case Some(r) => Some(text[r.lo..r.hi])
  }

  method ExtractJsonObject<V>(text: string, parse: string -> Option<V>) returns (r: Option<V>)
    ensures r == match ObjectSlice(text)
                 case Some(slice) => parse(slice)
                 case None => None
  {
    var i := 0;
    while i < |text|
      invariant i <= |text| && i <= IndexOf(text, '{')
    {
      if text[i] == '{' {
        var start := i;
        var st := OPENED;
        i := i + 1;
        while i < |text| && st.depth > 0
          invariant start < i <= |text| && st.depth > 0
          invariant Closing(text, start + 1, OPENED) == Closing(text, i, st)
        {
          st := Step(st, text[i]);
          i := i + 1;
          if st.depth == 0 {
            return parse(text[start..i]);
          }
        }
        return None;
      }
      i := i + 1;
    }
    return None;
  }

  // ---------------------------------------------------------------- the grammar

  /** Section 7: a string is made of unescaped characters, short escapes and `\uXXXX`. */
  datatype Piece = Plain(c: char) | Short(c: char) | Hex(digits: string)

  /** A value with every choice its serialisation makes: white space, escapes, digits. */
  datatype Json =
    | Literal(text: string)
    | Quoted(pieces: seq<Piece>)
    | Array(blank: string, items: seq<Item>)
    | Object(blank: string, members: seq<Member>)

  datatype Item = Item(before: string, value: Json, after: string)

  datatype Member = Member(before: string, key: seq<Piece>, colonBefore: string, colonAfter: string, value: Json, after: string)

  predicate Blank(s: string) {
    forall i :: 0 <= i < |s| ==> s[i] in " \t\n\r"
  }

  predicate ValidPiece(p: Piece) {
    match p
    case Plain(c) => c as int >= 0x20 && c != '"' && c != '\\'
    case Short(c) => c in "\"\\/bfnrt"
    case Hex(d) => |d| == 4 && forall i :: 0 <= i < 4 ==> d[i] in "0123456789abcdefABCDEF"
  }

  predicate ValidPieces(ps: seq<Piece>) {
    forall i :: 0 <= i < |ps| ==> ValidPiece(ps[i])
  }

  /** `true`, `false`, `null`, or a number; of a number only its characters matter here. */
  predicate ValidLiteral(s: string) {
    s == "true" || s == "false" || s == "null"
    || (s != "" && forall i :: 0 <= i < |s| ==> s[i] in "0123456789+-.eE")
  }

  predicate Valid(j: Json) {
    match j
    case Literal(text) => ValidLiteral(text)
    case Quoted(pieces) => ValidPieces(pieces)
    case Array(blank, items) => Blank(blank) && forall i :: 0 <= i < |items| ==> ValidItem(items[i])
    case Object(blank, members) => Blank(blank) && forall i :: 0 <= i < |members| ==> ValidMember(members[i])
  }

  predicate ValidItem(i: Item) {
    Blank(i.before) && Valid(i.value) && Blank(i.after)
  }

  predicate ValidMember(m: Member) {
    Blank(m.before) && ValidPieces(m.key) && Blank(m.colonBefore) && Blank(m.colonAfter) && Valid(m.value) && Blank(m.after)
  }

  function PieceText(p: Piece): string {
    match p
    case Plain(c) => [c]
    case Short(c) => ['\\', c]
    case Hex(d) => "\\u" + d
  }

  function PiecesText(ps: seq<Piece>): string {
    if ps == [] then "" else PieceText(ps[0]) + PiecesText(ps[1..])
  }

  function StringText(ps: seq<Piece>): string {
    "\"" + PiecesText(ps) + "\""
  }

  function Serialise(j: Json): string {
    match j
    case Literal(text) => text
    case Quoted(pieces) => StringText(pieces)
    case Array(blank, items) => "[" + (if items == [] then blank else ItemsText(items)) + "]"
    case Object(blank, members) => "{" + Body(blank, members) + "}"
  }

  function Body(blank: string, members: seq<Member>): string
    decreases members, 1
  {
    if members == [] then blank else MembersText(members)
  }

  function ItemText(i: Item): string {
    i.before + Serialise(i.value) + i.after
  }

  function ItemsText(items: seq<Item>): string
    requires items != []
  {
    ItemText(items[0]) + if |items| == 1 then "" else "," + ItemsText(items[1..])
  }

  function MemberText(m: Member): string {
    m.before + StringText(m.key) + m.colonBefore + ":" + m.colonAfter + Serialise(m.value) + m.after
  }

  function MembersText(members: seq<Member>): string
    requires members != []
    decreases members, 0
  {
    MemberText(members[0]) + if |members| == 1 then "" else "," + MembersText(members[1..])
  }

  // ---------------------------------------------------------------- agreement

  /** Reading `s` leads from `a` to `b` and never closes the object on the way. */
  predicate Passes(a: State, s: string, b: State)
    decreases |s|
  {
    a.depth > 0 &&
    if s == "" then a == b else Passes(Step(a, s[0]), s[1..], b)
  }

  lemma {:induction false} PassesConcat(a: State, s: string, b: State, t: string, c: State)
    requires Passes(a, s, b) && Passes(b, t, c)
    ensures Passes(a, s + t, c)
    decreases |s|
  {
    if s == "" {
      assert s + t == t;
    } else {
      assert (s + t)[0] == s[0] && (s + t)[1..] == s[1..] + t;
      PassesConcat(Step(a, s[0]), s[1..], b, t, c);
    }
  }

  lemma PassesOne(a: State, c: char)
    requires a.depth > 0 && Step(a, c).depth > 0
    ensures Passes(a, [c], Step(a, c))
  {
  }

  predicate Neutral(c: char) {
    c != '"' && c != '{' && c != '}'
  }

  lemma {:induction false} NeutralPasses(st: State, s: string)
    requires st.depth > 0 && !st.inString && forall i :: 0 <= i < |s| ==> Neutral(s[i])
    ensures Passes(st, s, st)
  {
    if s != "" {
      NeutralPasses(st, s[1..]);
    }
  }

  lemma PiecePasses(st: State, p: Piece)
    requires ValidPiece(p) && st.depth > 0 && st.inString && !st.escape
    ensures Passes(st, PieceText(p), st)
  {
    match p
    case Plain(c) => PassesOne(st, c);
    case Short(c) =>
      PassesOne(st, '\\');
      PassesOne(st.(escape := true), c);
      PassesConcat(st, "\\", st.(escape := true), [c], st);
      assert "\\" + [c] == PieceText(p);
    case Hex(d) =>
      PassesOne(st, '\\');
      PassesOne(st.(escape := true), 'u');
      PassesConcat(st, "\\", st.(escape := true), "u", st);
      HexPasses(st, d);
      PassesConcat(st, "\\" + "u", st, d, st);
  }

  lemma {:induction false} HexPasses(st: State, d: string)
    requires st.depth > 0 && st.inString && !st.escape
    requires forall i :: 0 <= i < |d| ==> d[i] in "0123456789abcdefABCDEF"
    ensures Passes(st, d, st)
  {
    if d != "" {
      HexPasses(st, d[1..]);
    }
  }

  lemma {:induction false} PiecesPass(st: State, ps: seq<Piece>)
    requires ValidPieces(ps) && st.depth > 0 && st.inString && !st.escape
    ensures Passes(st, PiecesText(ps), st)
  {
    if ps != [] {
      PiecePasses(st, ps[0]);
      PiecesPass(st, ps[1..]);
      PassesConcat(st, PieceText(ps[0]), st, PiecesText(ps[1..]), st);
    }
  }

  predicate Outside(st: State) {
    st.depth > 0 && !st.inString && !st.escape
  }

  lemma StringPasses(st: State, ps: seq<Piece>)
    requires ValidPieces(ps) && Outside(st)
    ensures Passes(st, StringText(ps), st)
  {
    var inside := st.(inString := true);
    PassesOne(st, '"');
    PiecesPass(inside, ps);
    PassesConcat(st, "\"", inside, PiecesText(ps), inside);
    PassesOne(inside, '"');
    PassesConcat(st, "\"" + PiecesText(ps), inside, "\"", st);
  }

  lemma BlankPasses(st: State, s: string)
    requires Blank(s) && Outside(st)
    ensures Passes(st, s, st)
  {
  }

  lemma Between(st: State, s: string, t: string)
    requires Passes(st, s, st) && Passes(st, t, st)
    ensures Passes(st, s + t, st)
  {
    PassesConcat(st, s, st, t, st);
  }

  /** Reading a complete value changes nothing, at any depth. */
  lemma {:induction false} ValuePasses(st: State, j: Json)
    requires Valid(j) && Outside(st)
    ensures Passes(st, Serialise(j), st)
    decreases j, 0
  {
    match j
    case Literal(text) =>
      NeutralPasses(st, text);
    case Quoted(pieces) =>
      StringPasses(st, pieces);
    case Array(blank, items) =>
      var inner := if items == [] then blank else ItemsText(items);
      if items == [] { BlankPasses(st, blank); } else { ItemsPass(st, items); }
      Bracketed(st, inner);
    case Object(blank, members) =>
      if members == [] { BlankPasses(Deeper(st), blank); } else { MembersPass(Deeper(st), members); }
      Braced(st, Body(blank, members));
  }

  function Deeper(st: State): State {
    st.(depth := st.depth + 1)
  }

  lemma Bracketed(st: State, inner: string)
    requires Outside(st) && Passes(st, inner, st)
    ensures Passes(st, "[" + inner + "]", st)
  {
    PassesOne(st, '[');
    PassesOne(st, ']');
    Between(st, "[", inner);
    Between(st, "[" + inner, "]");
  }

  lemma Braced(st: State, inner: string)
    requires Outside(st) && Passes(Deeper(st), inner, Deeper(st))
    ensures Passes(st, "{" + inner + "}", st)
  {
    PassesOne(st, '{');
    PassesOne(Deeper(st), '}');
    PassesConcat(st, "{", Deeper(st), inner, Deeper(st));
    PassesConcat(st, "{" + inner, Deeper(st), "}", st);
  }

  lemma {:induction false} ItemsPass(st: State, items: seq<Item>)
    requires items != [] && Outside(st) && forall i :: 0 <= i < |items| ==> ValidItem(items[i])
    ensures Passes(st, ItemsText(items), st)
    decreases items, 1
  {
    var i := items[0];
    BlankPasses(st, i.before);
    ValuePasses(st, i.value);
    BlankPasses(st, i.after);
    Between(st, i.before, Serialise(i.value));
    Between(st, i.before + Serialise(i.value), i.after);
    if |items| > 1 {
      ItemsPass(st, items[1..]);
      PassesOne(st, ',');
      Between(st, ",", ItemsText(items[1..]));
      Between(st, ItemText(i), "," + ItemsText(items[1..]));
    } else {
      assert ItemsText(items) == ItemText(i);
    }
  }

  lemma {:induction false} MemberPasses(st: State, m: Member)
    requires Outside(st) && ValidMember(m)
    ensures Passes(st, MemberText(m), st)
    decreases m, 1
  {
    BlankPasses(st, m.before);
    StringPasses(st, m.key);
    BlankPasses(st, m.colonBefore);
    PassesOne(st, ':');
    BlankPasses(st, m.colonAfter);
    ValuePasses(st, m.value);
    BlankPasses(st, m.after);
    var t := m.before + StringText(m.key);
    Between(st, m.before, StringText(m.key));
    Between(st, t, m.colonBefore);
    Between(st, t + m.colonBefore, ":");
    Between(st, t + m.colonBefore + ":", m.colonAfter);
    Between(st, t + m.colonBefore + ":" + m.colonAfter, Serialise(m.value));
    Between(st, t + m.colonBefore + ":" + m.colonAfter + Serialise(m.value), m.after);
  }

  lemma {:induction false} MembersPass(st: State, members: seq<Member>)
    requires members != [] && Outside(st) && forall i :: 0 <= i < |members| ==> ValidMember(members[i])
    ensures Passes(st, MembersText(members), st)
    decreases members, 2
  {
    MemberPasses(st, members[0]);
    if |members| > 1 {
      MembersPass(st, members[1..]);
      PassesOne(st, ',');
      Between(st, ",", MembersText(members[1..]));
      Between(st, MemberText(members[0]), "," + MembersText(members[1..]));
    } else {
      assert MembersText(members) == MemberText(members[0]);
    }
  }

  lemma {:induction false} ClosesAfter(text: string, i: nat, a: State, n: nat, b: State)
    requires i + n < |text| && text[i + n] == '}'
    requires Passes(a, text[i..i + n], b) && Outside(b) && b.depth == 1
    ensures Closing(text, i, a) == Some(i + n + 1)
    decreases n
  {
    if n > 0 {
      assert text[i..i + n][1..] == text[i + 1..i + 1 + (n - 1)];
      ClosesAfter(text, i + 1, Step(a, text[i]), n - 1, b);
    }
  }

  lemma BodyPasses(blank: string, members: seq<Member>)
    requires Valid(Object(blank, members))
    ensures Passes(OPENED, Body(blank, members), OPENED)
  {
    if members == [] { BlankPasses(OPENED, blank); } else { MembersPass(OPENED, members); }
  }

  /** For every object, every text without an opening brace before it and every text after
      it, the scanner cuts out exactly the object. */
  lemma SliceIsObject(prefix: string, blank: string, members: seq<Member>, suffix: string)
    requires '{' !in prefix && Valid(Object(blank, members))
    ensures ObjectSlice(prefix + Serialise(Object(blank, members)) + suffix)
            == Some(Serialise(Object(blank, members)))
  {
    var body := Body(blank, members);
    BodyPasses(blank, members);
    CutOut(prefix, body, suffix, prefix + ("{" + body + "}") + suffix, |prefix| + |body| + 2);
  }

  /** The object in the text is what the scanner finds exactly when no brace opens before it;
      otherwise the scanner sets out from that brace, wherever it leads. */
  lemma FoundExactly(prefix: string, blank: string, members: seq<Member>, suffix: string, text: string, end: nat)
    requires Valid(Object(blank, members))
    requires text == prefix + Serialise(Object(blank, members)) + suffix
    requires end == |prefix| + |Serialise(Object(blank, members))|
    ensures ObjectRange(text) == Some(Range(|prefix|, end)) <==> '{' !in prefix
    ensures '{' in prefix && ObjectRange(text).Some? ==> ObjectRange(text).value.lo == IndexOf(prefix, '{') < |prefix|
  {
    if '{' in prefix {
      FirstBrace(prefix, Serialise(Object(blank, members)), suffix, text);
    } else {
      BodyPasses(blank, members);
      CutOut(prefix, Body(blank, members), suffix, text, end);
    }
  }

  lemma FirstBrace(prefix: string, a: string, b: string, text: string)
    requires '{' in prefix && text == prefix + a + b
    ensures IndexOf(text, '{') == IndexOf(prefix, '{') < |prefix|
  {
    var k := IndexOf(prefix, '{');
    var i :| 0 <= i < |prefix| && prefix[i] == '{';
    assert k <= i && text[k] == '{';
    assert forall j :: 0 <= j < k ==> text[j] == prefix[j];
  }

  lemma CutOut(prefix: string, body: string, suffix: string, text: string, end: nat)
    requires '{' !in prefix && Passes(OPENED, body, OPENED)
    requires text == prefix + ("{" + body + "}") + suffix && end == |prefix| + |body| + 2
    ensures ObjectRange(text) == Some(Range(|prefix|, end)) && ObjectSlice(text) == Some("{" + body + "}")
  {
    var start, inner := |prefix|, |prefix| + 1;
    Regroup(prefix, body, suffix);
    IndexOfPrefix(prefix, '{', body + "}" + suffix);
    Slices(prefix, body, suffix, text, inner, end);
    ClosesAfter(text, inner, OPENED, |body|, OPENED);
    assert inner + |body| + 1 == end;
  }

  lemma Regroup(prefix: string, body: string, suffix: string)
    ensures prefix + ("{" + body + "}") + suffix == prefix + ['{'] + (body + "}" + suffix)
  {
  }

  lemma Slices(prefix: string, body: string, suffix: string, text: string, inner: nat, end: nat)
    requires text == prefix + ("{" + body + "}") + suffix && inner == |prefix| + 1 && end == |prefix| + |body| + 2
    ensures text[inner..inner + |body|] == body && text[inner + |body|] == '}'
    ensures text[|prefix|..end] == "{" + body + "}"
  {
  }

  /** An object that is not closed gives nothing, and neither does a text without one. */
  lemma UnclosedGivesNothing(prefix: string, s: string, st: State)
    requires '{' !in prefix && Passes(OPENED, s, st)
    ensures ObjectSlice(prefix) == None && ObjectSlice(prefix + ['{'] + s) == None
  {
    var text := prefix + ['{'] + s;
    IndexOfPrefix(prefix, '{', s);
    assert text[|prefix| + 1..] == s;
    NeverCloses(text, |prefix| + 1, OPENED, st);
    assert IndexOf(prefix, '{') == |prefix|;
  }

  lemma {:induction false} NeverCloses(text: string, i: nat, a: State, b: State)
    requires i <= |text| && Passes(a, text[i..], b)
    ensures Closing(text, i, a) == None
    decreases |text| - i
  {
    if i < |text| {
      assert text[i..][1..] == text[i + 1..];
      NeverCloses(text, i + 1, Step(a, text[i]), b);
    }
  }
}
