/** Lines of the `.env` file that somebody wrote by hand: comments, `export`, quotes and blanks. */
module EnvLines {
  import opened Text
  import opened EnvFile

  predicate AllWhitespace(s: string) {
    forall i :: 0 <= i < |s| ==> IsWhitespace(s[i])
  }

  lemma {:induction false} TrimStartBlank(blank: string, s: string)
    requires AllWhitespace(blank)
    ensures TrimStart(blank + s) == TrimStart(s)
  {
    if blank == "" {
      assert blank + s == s;
    } else {
      assert (blank + s)[1..] == blank[1..] + s;
      TrimStartBlank(blank[1..], s);
    }
  }

  lemma {:induction false} TrimEndBlank(s: string, blank: string)
    requires AllWhitespace(blank)
    ensures TrimEnd(s + blank) == TrimEnd(s)
  {
    if blank == "" {
      assert s + blank == s;
    } else {
      var n := |blank| - 1;
      assert (s + blank)[..|s + blank| - 1] == s + blank[..n];
      TrimEndBlank(s, blank[..n]);
    }
  }

  lemma {:induction false} TrimStartKeeps(s: string, c: char)
    ensures c in TrimStart(s) ==> c in s
  {
    if s != "" && IsWhitespace(s[0]) {
      TrimStartKeeps(s[1..], c);
    }
  }

  // ---------------------------------------------------------------- lines

  /** Blank lines and comments, indented or not, are no entries. */
  lemma CommentIgnored(blank: string, comment: string)
    requires AllWhitespace(blank) && (comment == "" || comment[0] == '#')
    ensures ParseLine(blank + comment) == None
  {
    TrimStartBlank(blank, comment);
  }

  lemma NoEqualsIgnored(line: string)
    requires '=' !in line
    ensures ParseLine(line) == None
  {
    var trimmed := TrimStart(line);
    TrimStartKeeps(line, '=');
    TrimStartKeeps(StripExport(trimmed), '=');
  }

  lemma CutAtEquals(left: string, value: string)
    requires '=' !in left
    ensures var s := left + "=" + value;
            IndexOf(s, '=') == |left| && s[..|left|] == left && s[|left| + 1..] == value
  {
    assert left + "=" + value == left + ['='] + value;
    IndexOfPrefix(left, '=', value);
  }

  lemma NoExport(name: string, value: string)
    requires !(EXPORT <= name)
    ensures !(EXPORT <= name + "=" + value)
  {
    var s := name + "=" + value;
    if |name| < |EXPORT| {
      assert s[|name|] == '=' != EXPORT[|name|];
    } else {
      assert s[..|EXPORT|] == name[..|EXPORT|];
    }
  }

  /** A line whose part in front of the equals sign is not a name. */
  lemma BadNameIgnored(blank: string, name: string, value: string)
    requires AllWhitespace(blank) && '=' !in name && Trimmed(name) && !IsKey(name) && !(EXPORT <= name)
    ensures ParseLine(blank + (name + "=" + value)) == None
  {
    var s := name + "=" + value;
    TrimStartBlank(blank, s);
    CutAtEquals(name, value);
    NoExport(name, value);
    assert s[0] == if name == "" then '=' else name[0];
    assert TrimStart(s) == s && StripExport(s) == s;
  }

  function Exporting(exported: bool, more: string): string {
    if exported then EXPORT + more else ""
  }

  lemma NameWithBlank(name: string, after: string)
    requires AllWhitespace(after) && IsKey(name)
    ensures '=' !in name + after && Trim(name + after) == name
  {
    assert IsWordChar(name[0]) && IsWordChar(name[|name| - 1]);
    assert (name + after)[0] == name[0] && TrimStart(name + after) == name + after;
    TrimEndBlank(name, after);
  }

  lemma ExportStripped(exported: bool, more: string, rest: string)
    requires AllWhitespace(more) && rest != "" && IsWordChar(rest[0]) && (!exported ==> !(EXPORT <= rest))
    ensures var s := Exporting(exported, more) + rest;
            s != "" && s[0] != '#' && TrimStart(s) == s && TrimStart(StripExport(s)) == rest
  {
    var s := Exporting(exported, more) + rest;
    assert s[0] == if exported then 'e' else rest[0];
    assert TrimStart(rest) == rest;
    if exported {
      assert EXPORT <= s && s[|EXPORT|..] == more + rest;
      TrimStartBlank(more, rest);
    } else {
      assert s == rest;
    }
  }

  /** Blanks in front, an `export`, and blanks around the name do not matter. Only a variable
      called `export` must not have a blank behind its name. */
  lemma LineExactly(blank: string, exported: bool, more: string, name: string, after: string, value: string)
    requires AllWhitespace(blank) && AllWhitespace(more) && AllWhitespace(after) && IsKey(name)
    requires !exported ==> !(EXPORT <= name + after + "=" + value)
    ensures ParseLine(blank + (Exporting(exported, more) + (name + after + "=" + value)))
            == Some(Entry(name, ParseValue(Trim(value))))
  {
    var rest := name + after + "=" + value;
    assert rest[0] == name[0] && IsWordChar(name[0]);
    TrimStartBlank(blank, Exporting(exported, more) + rest);
    ExportStripped(exported, more, rest);
    NameWithBlank(name, after);
    CutAtEquals(name + after, value);
  }

  // ---------------------------------------------------------------- values

  /** Single quotes: everything up to the next one, or to the end. */
  lemma SingleQuoted(s: string, tail: string)
    requires '\'' !in s
    ensures ParseValue("'" + s + "'" + tail) == s && ParseValue("'" + s) == s
  {
    var raw := "'" + s + "'" + tail;
    assert raw[1..] == s + ['\''] + tail && raw[1..][..|s|] == s;
    IndexOfPrefix(s, '\'', tail);
    assert ("'" + s)[1..] == s && s[..|s|] == s;
  }

  /** Double quotes: escapes are undone up to the closing quote, or to the end, and what follows
      it is dropped. */
  lemma DoubleQuoted(v: string, tail: string)
    ensures ParseValue("\"" + (Escape(v) + ("\"" + tail))) == v && ParseValue("\"" + Escape(v)) == v
  {
    UnescapeEscaped(v, "\"" + tail);
    UnescapeEscaped(v, "");
    assert ("\"" + (Escape(v) + ("\"" + tail)))[1..] == Escape(v) + ("\"" + tail);
    assert ("\"" + Escape(v))[1..] == Escape(v) && Escape(v) + "" == Escape(v);
    assert v + "" == v;
  }

  /** A backslash makes line feed, carriage return and tab of the letters n, r and t, and stands
      for nothing in front of any other character. */
  lemma EscapeExactly(c: char, tail: string)
    ensures Unescape("\\" + [c] + tail)
            == (if c == 'n' then "\n" else if c == 'r' then "\r" else if c == 't' then "\t" else [c]) + Unescape(tail)
  {
    assert ("\\" + [c] + tail)[2..] == tail;
  }

  /** A value that begins with no quote is what it reads, trimmed. */
  lemma BareTrimmed(raw: string)
    requires raw == "" || (raw[0] != '"' && raw[0] != '\'')
    ensures ParseValue(raw) == Trim(raw)
  {
  }

  /** A value is printed as it is exactly when it has something in it, and nothing that a quote
      would be needed for. */
  lemma PlainExactly(v: string)
    ensures FormatValue(v) == v
            <==> v != "" && forall i :: 0 <= i < |v| ==> !IsWhitespace(v[i]) && v[i] !in "=\"\\#'"
    ensures FormatValue(v) != v ==> FormatValue(v) == "\"" + Escape(v) + "\""
  {
    EscapeGrows(v);
    forall i | 0 <= i < |v| ensures ForcesQuotes(v[i]) <==> IsWhitespace(v[i]) || v[i] in "=\"\\#'" {
    }
  }

  lemma {:induction false} EscapeGrows(v: string)
    ensures |v| <= |Escape(v)|
  {
    if v != "" {
      EscapeGrows(v[..|v| - 1]);
    }
  }

  // ---------------------------------------------------------------- the target

  predicate Upper(s: string) {
    forall i :: 0 <= i < |s| ==> 'A' <= s[i] <= 'Z' || '0' <= s[i] <= '9' || s[i] == '_'
  }

  lemma UpperSuffix(p: string, s: string)
    requires Upper(s)
    ensures Upper(p + s) <==> Upper(p)
  {
    if Upper(p + s) {
      assert forall i :: 0 <= i < |p| ==> p[i] == (p + s)[i];
    }
  }

  /** The names that a key may be written under. */
  lemma ValidExactly(name: string)
    ensures IsValidEnvKey(name)
            <==> name == "GOOGLE_CX" || name == "SEARXNG_URL" || exists p :: name == p + "_API_KEY" && Upper(p)
  {
    var suffix := "_API_KEY";
    if p :| name == p + suffix && Upper(p) {
      assert name[|name| - |suffix|..] == suffix;
      UpperSuffix(p, suffix);
    }
    if EndsWith(name, suffix) {
      var p := name[..|name| - |suffix|];
      assert name == p + suffix;
      UpperSuffix(p, suffix);
    }
  }

  /** The target is the first of the provider's names that is valid, and else the name derived
      from its id. */
  lemma {:induction false} FirstValidExactly(keys: seq<string>)
    ensures FirstValid(keys).None? <==> forall i :: 0 <= i < |keys| ==> !IsValidEnvKey(keys[i])
    ensures forall i :: 0 <= i < |keys| && IsValidEnvKey(keys[i]) && (forall j :: 0 <= j < i ==> !IsValidEnvKey(keys[j])) ==>
              FirstValid(keys) == Some(keys[i])
  {
    if keys != [] {
      FirstValidExactly(keys[1..]);
      assert forall i :: 0 < i < |keys| ==> keys[i] == keys[1..][i - 1];
      forall i | 0 < i < |keys| && IsValidEnvKey(keys[i]) && (forall j :: 0 <= j < i ==> !IsValidEnvKey(keys[j]))
        ensures FirstValid(keys) == Some(keys[i])
      {
        assert forall j :: 0 <= j < i - 1 ==> keys[1..][j] == keys[j + 1];
      }
    }
  }

  lemma TargetExactly(keys: seq<string>, legacy: string)
    ensures TargetVar(None, legacy) == legacy
    ensures (forall i :: 0 <= i < |keys| ==> !IsValidEnvKey(keys[i])) ==> TargetVar(Some(keys), legacy) == legacy
    ensures forall i :: 0 <= i < |keys| && IsValidEnvKey(keys[i]) && (forall j :: 0 <= j < i ==> !IsValidEnvKey(keys[j])) ==>
              TargetVar(Some(keys), legacy) == keys[i]
  {
    FirstValidExactly(keys);
  }

  lemma {:induction false} NotEscaped(v: string, c: char)
    requires c == '\n' || c == '\r' || c == '\t'
    ensures c !in Escape(v)
  {
    if v != "" {
      NotEscaped(v[..|v| - 1], c);
      assert c !in EscapeChar(v[|v| - 1]);
    }
  }

  /** However the value looks, no line feed, carriage return or tab stands in its printed form. */
  lemma FormatsPlainly(v: string, c: char)
    requires c == '\n' || c == '\r' || c == '\t'
    ensures c !in FormatValue(v)
  {
    NotEscaped(v, c);
    if c in v {
      var i :| 0 <= i < |v| && v[i] == c;
      assert ForcesQuotes(v[i]);
    }
  }
}
