/** The `.env` file: its printer, its parser, and the key update of `write_api_key`. */
module EnvFile {
  import opened Text
  import opened Sorting

  datatype Entry = Entry(key: string, value: string)

  /** The keys that the parser accepts. */
  predicate IsKey(k: string) {
    k != "" && forall i :: 0 <= i < |k| ==> IsWordChar(k[i])
  }

  // ---------------------------------------------------------------- printing

  function EscapeChar(c: char): string {
    if c == '\\' then "\\\\"
    else if c == '"' then "\\\""
    else if c == '\n' then "\\n"
    else if c == '\r' then "\\r"
    else if c == '\t' then "\\t"
    else [c]
  }

  function Escape(v: string): string {
    if v == "" then "" else Escape(v[..|v| - 1]) + EscapeChar(v[|v| - 1])
  }

  predicate ForcesQuotes(c: char) {
    IsWhitespace(c) || c == '=' || c == '"' || c == '\\' || c == '#' || c == '\''
  }

  predicate NeedsQuote(v: string) {
    v == "" || exists i :: 0 <= i < |v| && ForcesQuotes(v[i])
  }

  function FormatValue(v: string): string {
    if NeedsQuote(v) then "\"" + Escape(v) + "\"" else v
  }

  method FormatEnvValue(value: string) returns (out: string)
    ensures out == FormatValue(value)
  {
    if !NeedsQuote(value) {
      return value;
    }
    out := "\"";
    for i := 0 to |value|
      invariant out == "\"" + Escape(value[..i])
    {
      assert value[..i + 1][..i] == value[..i];
      out := out + EscapeChar(value[i]);
    }
    assert value[..|value|] == value;
    out := out + "\"";
  }

  function PrintEntry(e: Entry): string {
    e.key + "=" + FormatValue(e.value)
  }

  function Content(entries: seq<Entry>): string {
    if entries == [] then "" else PrintEntry(entries[0]) + "\n" + Content(entries[1..])
  }

  // ---------------------------------------------------------------- parsing

  function Unescaped(c: char): char {
    if c == 'n' then '\n' else if c == 'r' then '\r' else if c == 't' then '\t' else c
  }

  /** The text up to the closing quote. A backslash at the very end stands for nothing. */
  function Unescape(s: string): string
    decreases |s|
  {
    if s == "" || s[0] == '"' then ""
    else if s[0] == '\\' then
      if |s| == 1 then "" else [Unescaped(s[1])] + Unescape(s[2..])
    else [s[0]] + Unescape(s[1..])
  }

  function ParseValue(raw: string): string {
    if raw != "" && raw[0] == '"' then Unescape(raw[1..])
    else if raw != "" && raw[0] == '\'' then raw[1..][..IndexOf(raw[1..], '\'')]
    else Trim(raw)
  }

  /** One round of the loop over a quoted value. */
  lemma UnescapeStep(s: string, i: nat, out: string)
    requires i < |s| && s[i] != '"'
    ensures s[i] != '\\' ==> out + Unescape(s[i..]) == out + [s[i]] + Unescape(s[i + 1..])
    ensures s[i] == '\\' && i + 1 < |s| ==>
              out + Unescape(s[i..]) == out + [Unescaped(s[i + 1])] + Unescape(s[i + 2..])
    ensures s[i] == '\\' && i + 1 == |s| ==> out + Unescape(s[i..]) == out + Unescape(s[i + 1..])
  {
  }

  method ParseEnvValue(raw: string) returns (out: string)
    ensures out == ParseValue(raw)
  {
    if raw != "" && raw[0] == '"' {
      var s := raw[1..];
      out := "";
      var i := 0;
      while i < |s|
        invariant i <= |s| && Unescape(s) == out + Unescape(s[i..])
      {
        var c := s[i];
        if c == '"' { break; }
        UnescapeStep(s, i, out);
        i := i + 1;
        if c == '\\' {
          if i < |s| {
            out := out + [Unescaped(s[i])];
            i := i + 1;
          }
        } else {
          out := out + [c];
        }
      }
    } else if raw != "" && raw[0] == '\'' {
      out := raw[1..][..IndexOf(raw[1..], '\'')];
    } else {
      out := Trim(raw);
    }
  }

  const EXPORT := "export "

  function StripExport(s: string): string {
    if EXPORT <= s then s[|EXPORT|..] else s
  }

  function ParseLine(line: string): Option<Entry> {
    var trimmed := TrimStart(line);
    if trimmed == "" || trimmed[0] == '#' then None else
      var rest := TrimStart(StripExport(trimmed));
      var k := IndexOf(rest, '=');
      if k == |rest| || !IsKey(Trim(rest[..k])) then None
      else Some(Entry(Trim(rest[..k]), ParseValue(Trim(rest[k + 1..]))))
  }

  function Keep(e: Option<Entry>): seq<Entry> {
    match e case Some(x) => [x] case None => []
  }

  function ParseLines(lines: seq<string>): seq<Entry> {
    if lines == [] then [] else Keep(ParseLine(lines[0])) + ParseLines(lines[1..])
  }

  lemma ParseLinesStep(lines: seq<string>, i: nat)
    requires i < |lines|
    ensures ParseLines(lines[i..]) == Keep(ParseLine(lines[i])) + ParseLines(lines[i + 1..])
  {
  }

  function Entries(raw: string): seq<Entry> {
    ParseLines(Lines(raw))
  }

  method ParseEnvLine(line: string) returns (r: Option<Entry>)
    ensures r == ParseLine(line)
  {
    var trimmed := TrimStart(line);
    if trimmed == "" || trimmed[0] == '#' {
      return None;
    }
    var rest := TrimStart(StripExport(trimmed));
    var eq := IndexOf(rest, '=');
    if eq == |rest| {
      return None;
    }
    var key := Trim(rest[..eq]);
    if !IsKey(key) {
      return None;
    }
    var value := ParseEnvValue(Trim(rest[eq + 1..]));
    return Some(Entry(key, value));
  }

  /** The loop of `parse_env_entries` over the lines of the file. */
  method ParseEnvEntries(lines: seq<string>) returns (out: seq<Entry>)
    ensures out == ParseLines(lines)
  {
    out := [];
    for i := 0 to |lines|
      invariant ParseLines(lines) == out + ParseLines(lines[i..])
    {
      var e := ParseEnvLine(lines[i]);
      ParseLinesStep(lines, i);
      Assoc(out, Keep(e), ParseLines(lines[i + 1..]));
      out := out + Keep(e);
    }
  }

  // ---------------------------------------------------------------- round trip

  lemma UnescapeChar(c: char, tail: string)
    ensures Unescape(EscapeChar(c) + tail) == [c] + Unescape(tail)
  {
    var s := EscapeChar(c) + tail;
    if |EscapeChar(c)| == 1 {
      assert s[0] == c && s[1..] == tail;
    } else {
      assert s[0] == '\\' && s[1] == EscapeChar(c)[1] && s[2..] == tail;
    }
  }

  lemma {:induction false} UnescapeEscaped(v: string, tail: string)
    ensures Unescape(Escape(v) + tail) == v + Unescape(tail)
  {
    if v == "" {
      assert Escape(v) + tail == tail;
    } else {
      var w, c := v[..|v| - 1], v[|v| - 1];
      UnescapeEscaped(w, EscapeChar(c) + tail);
      UnescapeChar(c, tail);
      Assoc(Escape(w), EscapeChar(c), tail);
      Assoc(w, [c], Unescape(tail));
      assert w + [c] == v;
    }
  }

  /** Every value survives, and the printed form is one trimmed line. */
  lemma ValueRoundTrip(v: string)
    ensures ParseValue(FormatValue(v)) == v
    ensures FormatValue(v) != "" && Trimmed(FormatValue(v)) && '\n' !in FormatValue(v)
  {
    var f := FormatValue(v);
    if NeedsQuote(v) {
      UnescapeEscaped(v, "\"");
      assert f[1..] == Escape(v) + "\"";
      assert v + "" == v;
      EscapedInLine(v);
    } else {
      assert !ForcesQuotes(v[0]) && !ForcesQuotes(v[|v| - 1]);
    }
  }

  lemma EscapeCharInLine(c: char)
    ensures '\n' !in EscapeChar(c)
  {
  }

  lemma {:induction false} EscapedInLine(v: string)
    ensures '\n' !in Escape(v)
  {
    if v != "" {
      EscapedInLine(v[..|v| - 1]);
      EscapeCharInLine(v[|v| - 1]);
    }
  }

  lemma NotExport(key: string, value: string)
    requires IsKey(key)
    ensures !(EXPORT <= key + "=" + value)
  {
    var s := key + "=" + value;
    if |key| < 7 {
      assert s[|key|] == '=' && EXPORT[|key|] != '=';
    } else {
      assert s[6] == key[6] && IsWordChar(key[6]) && EXPORT[6] == ' ';
    }
  }

  lemma ParsePrintedLine(key: string, v: string)
    requires IsKey(key) && Trimmed(v)
    ensures ParseLine(key + "=" + v) == Some(Entry(key, ParseValue(v)))
  {
    var s := key + "=" + v;
    NotExport(key, v);
    assert s[0] == key[0] && IsWordChar(key[0]);
    assert TrimStart(s) == s && StripExport(s) == s;
    assert s == key + ['='] + v;
    IndexOfPrefix(key, '=', v);
    assert s[..|key|] == key && s[|key| + 1..] == v;
    assert IsWordChar(key[|key| - 1]) && Trimmed(key);
  }

  lemma PrintedIsOneLine(key: string, v: string)
    requires IsKey(key) && Trimmed(v) && v != "" && '\n' !in v
    ensures '\n' !in key + "=" + v && StripCr(key + "=" + v) == key + "=" + v
  {
  }

  lemma EntryRoundTrip(e: Entry)
    requires IsKey(e.key)
    ensures ParseLine(PrintEntry(e)) == Some(e)
    ensures '\n' !in PrintEntry(e) && StripCr(PrintEntry(e)) == PrintEntry(e)
  {
    var v := FormatValue(e.value);
    ValueRoundTrip(e.value);
    ParsePrintedLine(e.key, v);
    PrintedIsOneLine(e.key, v);
  }

  /** Parsing the printed file returns the same entries, with their order and duplicates. */
  lemma {:induction false} FileRoundTrip(entries: seq<Entry>)
    requires forall i :: 0 <= i < |entries| ==> IsKey(entries[i].key)
    ensures Entries(Content(entries)) == entries
  {
    if entries != [] {
      var e := entries[0];
      FileRoundTrip(entries[1..]);
      EntryRoundTrip(e);
      LinesCons(PrintEntry(e), Content(entries[1..]));
      assert Content(entries) == PrintEntry(e) + "\n" + Content(entries[1..]);
    }
  }

  lemma {:induction false} ParsedKeysValid(lines: seq<string>)
    ensures forall i :: 0 <= i < |ParseLines(lines)| ==> IsKey(ParseLines(lines)[i].key)
  {
    if lines != [] {
      ParsedKeysValid(lines[1..]);
    }
  }

  // ---------------------------------------------------------------- key update

  /** The variables that a list of entries sets; the last entry of a key wins. */
  function Effective(entries: seq<Entry>): map<string, string> {
    if entries == [] then map[] else
      var e := entries[|entries| - 1];
      Effective(entries[..|entries| - 1])[e.key := e.value]
  }

  predicate EndsWith(s: string, t: string) {
    |t| <= |s| && s[|s| - |t|..] == t
  }

  predicate IsValidEnvKey(key: string) {
    key != "" &&
    (key == "GOOGLE_CX" || key == "SEARXNG_URL"
     || (EndsWith(key, "_API_KEY")
         && forall i :: 0 <= i < |key| ==> 'A' <= key[i] <= 'Z' || '0' <= key[i] <= '9' || key[i] == '_'))
  }

  lemma ValidEnvKeyIsKey(key: string)
    requires IsValidEnvKey(key)
    ensures IsKey(key)
  {
  }

  function FirstValid(keys: seq<string>): Option<string> {
    if keys == [] then None
    else if IsValidEnvKey(keys[0]) then Some(keys[0])
    else FirstValid(keys[1..])
  }

  /** `api_key_target_var`; `legacy` is the name derived from the provider id. */
  function TargetVar(envKeys: Option<seq<string>>, legacy: string): string {
    match envKeys
    case None => legacy
    case Some(keys) => match FirstValid(keys) case Some(k) => k case None => legacy
  }

  predicate Kept(key: string, target: string, legacy: string) {
    key != target && (target == legacy || key != legacy)
  }

  function KeptEntry(target: string, legacy: string): Entry -> bool {
    (e: Entry) => Kept(e.key, target, legacy)
  }

  function Retain(entries: seq<Entry>, target: string, legacy: string): seq<Entry> {
    Filter(entries, KeptEntry(target, legacy))
  }

  function Updated(raw: Option<string>, target: string, legacy: string, key: string): string {
    Content(Retain(EntriesOf(raw), target, legacy) + [Entry(target, key)])
  }

  method RetainEntries(entries: seq<Entry>, target: string, legacy: string) returns (kept: seq<Entry>)
    ensures kept == Retain(entries, target, legacy)
  {
    kept := [];
    for i := 0 to |entries|
      invariant kept == Retain(entries[..i], target, legacy)
    {
      assert entries[..i + 1][..i] == entries[..i];
      if Kept(entries[i].key, target, legacy) {
        kept := kept + [entries[i]];
      }
    }
    assert entries[..|entries|] == entries;
  }

  /** `write_env_entries`, up to the write itself. */
  method WriteEnvEntries(entries: seq<Entry>) returns (content: string)
    ensures content == Content(entries)
  {
    content := "";
    for i := 0 to |entries|
      invariant Content(entries) == content + Content(entries[i..])
    {
      assert entries[i..][1..] == entries[i + 1..];
      var value := FormatEnvValue(entries[i].value);
      content := content + (entries[i].key + "=" + value + "\n");
    }
  }

  /** The file at `omg_env_path`; `None` when it does not exist. */
  class EnvStore {
    var raw: Option<string>

    constructor (raw: Option<string>)
      ensures this.raw == raw
    {
      this.raw := raw;
    }

    /** `write_api_key`: refuses a target that is not a valid name, and then changes nothing. */
    method WriteApiKey(envKeys: Option<seq<string>>, legacy: string, key: string) returns (r: Option<string>)
      modifies this
      ensures var target := TargetVar(envKeys, legacy);
              if IsValidEnvKey(target)
              then r == Some(target) && raw == Some(Updated(old(raw), target, legacy, key))
              else r == None && raw == old(raw)
    {
      var target := TargetVar(envKeys, legacy);
      if !IsValidEnvKey(target) {
        return None;
      }
      var entries: seq<Entry> := [];
      if raw.Some? {
        entries := ParseEnvEntries(Lines(raw.value));
      }
      var kept := RetainEntries(entries, target, legacy);
      var content := WriteEnvEntries(kept + [Entry(target, key)]);
      raw := Some(content);
      return Some(target);
    }
  }

  lemma EffectiveSnoc(entries: seq<Entry>, e: Entry)
    ensures Effective(entries + [e]) == Effective(entries)[e.key := e.value]
  {
    assert (entries + [e])[..|entries|] == entries;
  }

  lemma RetainSnoc(entries: seq<Entry>, e: Entry, target: string, legacy: string)
    ensures Effective(Retain(entries + [e], target, legacy))
            == if Kept(e.key, target, legacy) then Effective(Retain(entries, target, legacy))[e.key := e.value]
               else Effective(Retain(entries, target, legacy))
  {
    var kept := Retain(entries, target, legacy);
    FilterSnoc(entries, e, KeptEntry(target, legacy));
    EffectiveSnoc(kept, e);
    assert kept + [] == kept;
  }

  lemma {:induction false} RetainEffective(entries: seq<Entry>, target: string, legacy: string)
    ensures Effective(Retain(entries, target, legacy))
            == map k | k in Effective(entries) && Kept(k, target, legacy) :: Effective(entries)[k]
  {
    if entries != [] {
      var front, e := entries[..|entries| - 1], entries[|entries| - 1];
      RetainEffective(front, target, legacy);
      assert entries == front + [e];
      RetainSnoc(front, e, target, legacy);
      EffectiveSnoc(front, e);
    }
  }

  lemma RetainKeysValid(entries: seq<Entry>, target: string, legacy: string)
    requires forall i :: 0 <= i < |entries| ==> IsKey(entries[i].key)
    ensures forall e :: e in Retain(entries, target, legacy) ==> IsKey(e.key)
  {
    FilterElements(entries, KeptEntry(target, legacy));
  }

  function EntriesOf(raw: Option<string>): seq<Entry> {
    match raw case Some(r) => Entries(r) case None => []
  }

  function Variables(raw: Option<string>): map<string, string> {
    Effective(EntriesOf(raw))
  }

  lemma UpdatedEntries(raw: Option<string>, target: string, legacy: string, key: string)
    requires IsValidEnvKey(target)
    ensures Entries(Updated(raw, target, legacy, key))
            == Retain(EntriesOf(raw), target, legacy) + [Entry(target, key)]
  {
    if raw.Some? { ParsedKeysValid(Lines(raw.value)); }
    var kept := Retain(EntriesOf(raw), target, legacy);
    var all := kept + [Entry(target, key)];
    RetainKeysValid(EntriesOf(raw), target, legacy);
    ValidEnvKeyIsKey(target);
    forall i | 0 <= i < |all| ensures IsKey(all[i].key) {
      assert i < |kept| ==> all[i] in kept;
    }
    FileRoundTrip(all);
  }

  lemma RetainedVariables(entries: seq<Entry>, target: string, legacy: string, key: string)
    ensures Effective(Retain(entries, target, legacy) + [Entry(target, key)])
            == (Effective(entries) - {target, legacy})[target := key]
  {
    var kept := Retain(entries, target, legacy);
    RetainEffective(entries, target, legacy);
    assert (kept + [Entry(target, key)])[..|kept|] == kept;
    assert Effective(kept + [Entry(target, key)]) == Effective(kept)[target := key];
  }

  /** Whatever was in the file, writing a key removes the legacy name, sets the target, and
      leaves every other variable as it was. */
  lemma WriteChangesOnlyTarget(raw: Option<string>, target: string, legacy: string, key: string)
    requires IsValidEnvKey(target)
    ensures Variables(Some(Updated(raw, target, legacy, key)))
            == (Variables(raw) - {target, legacy})[target := key]
  {
    UpdatedEntries(raw, target, legacy, key);
    RetainedVariables(EntriesOf(raw), target, legacy, key);
  }
}
