/**
 * The configuration reader: a value looked up by (section, key) is cleaned by
 * removing one leading double quote, removing one trailing double quote,
 * stripping surrounding whitespace and turning every two-character escape
 * backslash-n into a real newline, in that order.
 */
module Configuration {
  import opened Wrappers

  /** What the configparser lookup raises when a value is absent. */
  datatype LookupError = NoSection(section: string) | NoOption(option: string, section: string)

  /** A parsed INI file: the values of each section, keyed by option name. */
  datatype Config = Config(sections: map<string, map<string, string>>)

  const Quote: string := "\""
  const DefaultSection: string := "config"

  /** Python's `str.isspace` for one character: the characters `str.strip()` removes. */
  predicate IsSpace(c: char) {
    ('\t' <= c <= '\r') || ('\U{1C}' <= c <= ' ') || c == '\U{85}' || c == '\U{A0}'
    || c == '\U{1680}' || ('\U{2000}' <= c <= '\U{200A}') || c == '\U{2028}' || c == '\U{2029}'
    || c == '\U{202F}' || c == '\U{205F}' || c == '\U{3000}'
  }

  predicate AllSpace(s: string) {
    forall i :: 0 <= i < |s| ==> IsSpace(s[i])
  }

  predicate EndsWith(s: string, suffix: string) {
    |suffix| <= |s| && s[|s| - |suffix|..] == suffix
  }

  /** True when backslash immediately followed by `n` occurs somewhere in `s`. */
  predicate HasEscapedNewline(s: string) {
    exists i :: 0 <= i < |s| - 1 && s[i] == '\\' && s[i + 1] == 'n'
  }

  /** Python's `str.removeprefix`. */
  function RemovePrefix(s: string, prefix: string): (r: string)
    ensures prefix <= s ==> prefix + r == s
    ensures !(prefix <= s) ==> r == s
  {
    if prefix <= s then s[|prefix|..] else s
  }

  /** Python's `str.removesuffix`. */
  function RemoveSuffix(s: string, suffix: string): (r: string)
    ensures EndsWith(s, suffix) ==> r + suffix == s
    ensures !EndsWith(s, suffix) ==> r == s
  {
    if EndsWith(s, suffix) then s[..|s| - |suffix|] else s
  }

  /** Removes leading whitespace. */
  function StripLeading(s: string): string
    decreases |s|
  {
    if s != [] && IsSpace(s[0]) then StripLeading(s[1..]) else s
  }

  /** Removes trailing whitespace. */
  function StripTrailing(s: string): string
    decreases |s|
  {
    if s != [] && IsSpace(s[|s| - 1]) then StripTrailing(s[..|s| - 1]) else s
  }

  /** Python's `str.strip()` with no argument. */
  function Strip(s: string): string {
    StripTrailing(StripLeading(s))
  }

  /**
   * Python's `s.replace("\\n", "\n")`: scanning left to right, each backslash
   * followed by `n` becomes one newline; every other character is copied.
   */
  function UnescapeNewlines(s: string): string
    decreases |s|
  {
    if |s| >= 2 && s[0] == '\\' && s[1] == 'n' then "\n" + UnescapeNewlines(s[2..])
    else if s == [] then []
    else [s[0]] + UnescapeNewlines(s[1..])
  }

  /** The first two steps of the chain: one quote off each end at most. */
  function Unquote(raw: string): string {
    RemoveSuffix(RemovePrefix(raw, Quote), Quote)
  }

  /** The whole normalisation chain applied to a raw configuration value. */
  function Normalize(raw: string): string {
    UnescapeNewlines(Strip(Unquote(raw)))
  }

  /** `Config.get(key, section='config')`: look up, then normalise. */
  function Get(cfg: Config, key: string, section: string := DefaultSection): (r: Result<string, LookupError>)
    ensures r.Ok? <==> section in cfg.sections && key in cfg.sections[section]
    ensures section !in cfg.sections ==> r.Err? && r.error.NoSection?
    ensures r.Ok? ==> !HasEscapedNewline(r.value) && |r.value| <= |cfg.sections[section][key]|
  {
    if section !in cfg.sections then Err(NoSection(section))
    else if key !in cfg.sections[section] then Err(NoOption(key, section))
    else
      var raw := cfg.sections[section][key];
      NormalizeHasNoEscapedNewline(raw);
      NormalizeNeverGrows(raw);
      Ok(Normalize(raw))
  }

  // ---------------------------------------------------------------------------
  // Reference definitions used to state what the unescaping step does.

  /** Number of positions where backslash-n starts (occurrences never overlap). */
  function CountEscapedNewlines(s: string): nat
    decreases |s|
  {
    if |s| < 2 then 0
    else (if s[0] == '\\' && s[1] == 'n' then 1 else 0) + CountEscapedNewlines(s[1..])
  }

  /** The inverse direction: every newline written back as backslash-n. */
  function EscapeNewlines(t: string): string
    decreases |t|
  {
    if t == [] then []
    else if t[0] == '\n' then "\\n" + EscapeNewlines(t[1..])
    else [t[0]] + EscapeNewlines(t[1..])
  }

  // ---------------------------------------------------------------------------
  // Properties of the unescaping step.

  /** Unescaping a non-empty string yields a string that starts with a newline or with the same character. */
  lemma {:induction false} UnescapeHead(s: string)
    requires s != []
    ensures UnescapeNewlines(s) != []
    ensures UnescapeNewlines(s)[0] == '\n' || UnescapeNewlines(s)[0] == s[0]
  {
  }

  /** No backslash-n pair survives the unescaping step. */
  lemma {:induction false} UnescapeLeavesNoEscape(s: string)
    ensures !HasEscapedNewline(UnescapeNewlines(s))
    decreases |s|
  {
    var r := UnescapeNewlines(s);
    if |s| >= 2 && s[0] == '\\' && s[1] == 'n' {
      var rest := UnescapeNewlines(s[2..]);
      UnescapeLeavesNoEscape(s[2..]);
      assert r == "\n" + rest;
      forall i | 0 <= i < |r| - 1 ensures !(r[i] == '\\' && r[i + 1] == 'n') {
        if i > 0 { assert r[i] == rest[i - 1] && r[i + 1] == rest[i]; }
      }
    } else if s != [] {
      var rest := UnescapeNewlines(s[1..]);
      UnescapeLeavesNoEscape(s[1..]);
      assert r == [s[0]] + rest;
      forall i | 0 <= i < |r| - 1 ensures !(r[i] == '\\' && r[i + 1] == 'n') {
        if i > 0 {
          assert r[i] == rest[i - 1] && r[i + 1] == rest[i];
        } else if s[0] == '\\' {
          UnescapeHead(s[1..]);
          assert s[1] != 'n';
        }
      }
    }
  }

  /** Each escape pair becomes exactly one character; all other characters are kept. */
  lemma {:induction false} UnescapeLength(s: string)
    ensures |UnescapeNewlines(s)| == |s| - CountEscapedNewlines(s)
    decreases |s|
  {
    if |s| >= 2 && s[0] == '\\' && s[1] == 'n' {
      UnescapeLength(s[2..]);
      assert s[1..][1..] == s[2..];
    } else if s != [] {
      UnescapeLength(s[1..]);
    }
  }

  /** A string without an escape pair is left alone by the unescaping step. */
  lemma {:induction false} UnescapeIdentity(s: string)
    requires !HasEscapedNewline(s)
    ensures UnescapeNewlines(s) == s
    decreases |s|
  {
    if s != [] {
      assert !(|s| >= 2 && s[0] == '\\' && s[1] == 'n');
      assert !HasEscapedNewline(s[1..]) by {
        forall i | 0 <= i < |s[1..]| - 1 ensures !(s[1..][i] == '\\' && s[1..][i + 1] == 'n') {
          assert s[1..][i] == s[i + 1] && s[1..][i + 1] == s[i + 2];
        }
      }
      UnescapeIdentity(s[1..]);
    }
  }

  /**
   * The scan is left to right and local: unescaping a concatenation is the
   * concatenation of the unescaped parts unless a backslash at the end of the
   * first part meets an `n` at the start of the second.
   */
  lemma {:induction false} UnescapeConcat(a: string, b: string)
    requires !(a != [] && b != [] && a[|a| - 1] == '\\' && b[0] == 'n')
    ensures UnescapeNewlines(a + b) == UnescapeNewlines(a) + UnescapeNewlines(b)
    decreases |a|
  {
    if a == [] {
      assert a + b == b;
    } else if |a| >= 2 && a[0] == '\\' && a[1] == 'n' {
      assert (a + b)[2..] == a[2..] + b;
      UnescapeConcat(a[2..], b);
    } else {
      assert (a + b)[1..] == a[1..] + b;
      if |a| == 1 && b != [] {
        assert (a + b)[1] == b[0];
      }
      UnescapeConcat(a[1..], b);
    }
  }

  /** Writing newlines back as escapes and unescaping restores any text free of escape pairs. */
  lemma {:induction false} UnescapeUndoesEscape(t: string)
    requires !HasEscapedNewline(t)
    ensures UnescapeNewlines(EscapeNewlines(t)) == t
    decreases |t|
  {
    if t != [] {
      assert !HasEscapedNewline(t[1..]) by {
        forall i | 0 <= i < |t[1..]| - 1 ensures !(t[1..][i] == '\\' && t[1..][i + 1] == 'n') {
          assert t[1..][i] == t[i + 1] && t[1..][i + 1] == t[i + 2];
        }
      }
      UnescapeUndoesEscape(t[1..]);
      var e := EscapeNewlines(t[1..]);
      if t[0] == '\n' {
        assert EscapeNewlines(t) == "\\n" + e;
        assert ("\\n" + e)[2..] == e;
      } else {
        assert EscapeNewlines(t) == [t[0]] + e;
        assert ([t[0]] + e)[1..] == e;
        if t[0] == '\\' && e != [] {
          EscapeHead(t[1..]);
          assert e[0] != 'n';
        }
      }
    }
  }

  /** The first character of an escaped string is `n` only if the text started with `n`. */
  lemma {:induction false} EscapeHead(t: string)
    requires t != []
    ensures EscapeNewlines(t) != []
    ensures EscapeNewlines(t)[0] == 'n' ==> t[0] == 'n'
  {
  }

  /** Unescaping a newline-free string and escaping again gives the string back. */
  lemma {:induction false} EscapeUndoesUnescape(s: string)
    requires forall i :: 0 <= i < |s| ==> s[i] != '\n'
    ensures EscapeNewlines(UnescapeNewlines(s)) == s
    decreases |s|
  {
    if |s| >= 2 && s[0] == '\\' && s[1] == 'n' {
      var u := UnescapeNewlines(s[2..]);
      EscapeUndoesUnescape(s[2..]);
      assert ("\n" + u)[1..] == u;
      assert EscapeNewlines("\n" + u) == "\\n" + EscapeNewlines(u);
      assert s == "\\n" + s[2..];
    } else if s != [] {
      var u := UnescapeNewlines(s[1..]);
      EscapeUndoesUnescape(s[1..]);
      assert ([s[0]] + u)[1..] == u;
      assert EscapeNewlines([s[0]] + u) == [s[0]] + EscapeNewlines(u);
      assert s == [s[0]] + s[1..];
    }
  }

  // ---------------------------------------------------------------------------
  // Properties of the stripping step.

  /** Leading whitespace is cut, all of it, and nothing else. */
  lemma {:induction false} StripLeadingCutsSpace(s: string)
    ensures var r := StripLeading(s);
      |r| <= |s| && r == s[|s| - |r|..] && AllSpace(s[..|s| - |r|]) && (r == [] || !IsSpace(r[0]))
    decreases |s|
  {
    if s != [] && IsSpace(s[0]) {
      StripLeadingCutsSpace(s[1..]);
      var r := StripLeading(s[1..]);
      assert s[..|s| - |r|] == [s[0]] + s[1..][..|s| - 1 - |r|];
    }
  }

  /** Trailing whitespace is cut, all of it, and nothing else. */
  lemma {:induction false} StripTrailingCutsSpace(s: string)
    ensures var r := StripTrailing(s);
      |r| <= |s| && r == s[..|r|] && AllSpace(s[|r|..]) && (r == [] || !IsSpace(r[|r| - 1]))
    decreases |s|
  {
    if s != [] && IsSpace(s[|s| - 1]) {
      var t := s[..|s| - 1];
      StripTrailingCutsSpace(t);
      var r := StripTrailing(t);
      assert s[..|r|] == t[..|r|];
      assert s[|r|..] == t[|r|..] + [s[|s| - 1]];
    }
  }

  /** `Strip` returns a contiguous piece of its input, cut only at whitespace, with no whitespace at either end. */
  lemma StripIsMaximalTrim(s: string)
    ensures exists i, j | 0 <= i <= j <= |s| :: Strip(s) == s[i..j] && AllSpace(s[..i]) && AllSpace(s[j..])
    ensures Strip(s) == [] || (!IsSpace(Strip(s)[0]) && !IsSpace(Strip(s)[|Strip(s)| - 1]))
  {
    var l := StripLeading(s);
    var r := StripTrailing(l);
    StripLeadingCutsSpace(s);
    StripTrailingCutsSpace(l);
    var i := |s| - |l|;
    var j := i + |r|;
    assert s[i..j] == l[..|r|];
    assert AllSpace(s[j..]) by {
      assert s[j..] == l[|r|..];
    }
    if r != [] {
      assert r[0] == l[0];
    }
  }

  /** A string with no whitespace at either end is not changed by `Strip`. */
  lemma StripIdentity(s: string)
    requires s == [] || (!IsSpace(s[0]) && !IsSpace(s[|s| - 1]))
    ensures Strip(s) == s
  {
  }

  // ---------------------------------------------------------------------------
  // Properties of the whole chain.

  /** The result of normalisation never contains backslash followed by `n`. */
  lemma NormalizeHasNoEscapedNewline(raw: string)
    ensures !HasEscapedNewline(Normalize(raw))
  {
    UnescapeLeavesNoEscape(Strip(Unquote(raw)));
  }

  /** Every step only removes characters or replaces two characters by one. */
  lemma NormalizeNeverGrows(raw: string)
    ensures |Normalize(raw)| <= |raw|
  {
    var u := Unquote(raw);
    var t := Strip(u);
    StripLeadingCutsSpace(u);
    StripTrailingCutsSpace(StripLeading(u));
    UnescapeLength(t);
  }

  /**
   * Quote removal takes at most one character off each end of the raw value,
   * and a removed character is a double quote that was the very first (or,
   * after the first removal, the very last) character.
   */
  lemma UnquoteTrimsAtMostOneQuotePerEnd(raw: string)
    ensures exists i, j | 0 <= i <= 1 && i <= j <= |raw| ::
      Unquote(raw) == raw[i..j]
      && (i == 1 <==> Quote <= raw)
      && (j < |raw| ==> j == |raw| - 1 && raw[j] == '"' && i < |raw|)
  {
    var p := RemovePrefix(raw, Quote);
    var i := if Quote <= raw then 1 else 0;
    assert p == raw[i..];
    var j := if EndsWith(p, Quote) then |raw| - 1 else |raw|;
    assert Unquote(raw) == raw[i..j];
  }

  /** A raw value with nothing to remove and nothing to unescape is returned unchanged. */
  lemma NormalizeIdentity(raw: string)
    requires !(Quote <= raw) && !EndsWith(raw, Quote)
    requires raw == [] || (!IsSpace(raw[0]) && !IsSpace(raw[|raw| - 1]))
    requires !HasEscapedNewline(raw)
    ensures Normalize(raw) == raw
  {
    assert Unquote(raw) == raw;
    StripIdentity(raw);
    UnescapeIdentity(raw);
  }

  /** A quote behind leading whitespace is not removed: `' "x"'` becomes `"x`. */
  lemma QuoteBehindSpaceIsKept()
    ensures Normalize(" \"x\"") == "\"x"
  {
    var raw := " \"x\"";
    var kept := "\"x";
    var spaced := " \"x";
    assert Unquote(raw) == spaced by {
      assert !(Quote <= raw);
      assert EndsWith(raw, Quote);
      assert raw[..|raw| - 1] == spaced;
    }
    assert StripLeading(spaced) == kept by {
      assert IsSpace(spaced[0]);
      assert spaced[1..] == kept;
      assert StripLeading(kept) == kept by { assert !IsSpace(kept[0]); }
    }
    assert StripTrailing(kept) == kept by { assert !IsSpace(kept[1]); }
    assert !HasEscapedNewline(kept) by { assert kept[0] != '\\'; }
    UnescapeIdentity(kept);
  }

  /** Only one quote is removed from each end: `""x""` becomes `"x"`. */
  lemma OnlyOneQuotePerEndIsRemoved()
    ensures Normalize("\"\"x\"\"") == "\"x\""
  {
    var raw := "\"\"x\"\"";
    var once := "\"x\"\"";
    var inner := "\"x\"";
    assert RemovePrefix(raw, Quote) == once by {
      assert Quote <= raw;
      assert raw[1..] == once;
    }
    assert Unquote(raw) == inner by {
      assert EndsWith(once, Quote);
      assert once[..|once| - 1] == inner;
    }
    assert StripLeading(inner) == inner by { assert !IsSpace(inner[0]); }
    assert StripTrailing(inner) == inner by { assert !IsSpace(inner[2]); }
    assert !HasEscapedNewline(inner) by {
      assert inner[0] != '\\' && inner[1] != '\\';
    }
    UnescapeIdentity(inner);
  }

  /** Stripping before removing quotes would give a different result: `' "x"'` would lose both quotes, where `QuoteBehindSpaceIsKept` keeps one. */
  lemma QuoteRemovalPrecedesStrip()
    ensures Unquote(Strip(" \"x\"")) == "x"
  {
    var raw := " \"x\"";
    var quoted := "\"x\"";
    assert StripLeading(raw) == quoted by {
      assert raw[1..] == quoted;
      assert !IsSpace(quoted[0]);
    }
    assert StripTrailing(quoted) == quoted;
    assert RemovePrefix(quoted, Quote) == "x\"" by { assert Quote <= quoted; }
    assert RemoveSuffix("x\"", Quote) == "x" by { assert EndsWith("x\"", Quote); }
  }

  /** Unescaping before stripping would give a different result: `x\\n` keeps its final newline. */
  lemma StripPrecedesUnescape()
    ensures Normalize("x\\n") == "x\n"
    ensures Strip(UnescapeNewlines("x\\n")) == "x"
  {
    var raw := "x\\n";
    assert Unquote(raw) == raw by {
      assert raw[0] != Quote[0];
      assert raw[|raw| - 1..] != Quote;
    }
    assert StripLeading(raw) == raw by { assert !IsSpace(raw[0]); }
    assert StripTrailing(raw) == raw by { assert !IsSpace(raw[2]); }
    assert UnescapeNewlines(raw) == "x\n" by {
      assert raw[1..] == "\\n";
      assert "\\n"[2..] == [];
      assert UnescapeNewlines("\\n") == "\n" + UnescapeNewlines([]);
    }
    assert StripLeading("x\n") == "x\n" by { assert !IsSpace('x'); }
    assert StripTrailing("x\n") == "x" by {
      assert IsSpace('\n');
      assert "x\n"[..1] == "x";
      assert StripTrailing("x") == "x" by { assert !IsSpace('x'); }
    }
  }

  /** `get(key)` reads the `config` section. */
  lemma GetDefaultsToConfigSection(cfg: Config, key: string)
    ensures Get(cfg, key) == Get(cfg, key, "config")
  {
  }

  /** A present key yields its normalised value; an absent one yields the matching lookup error. */
  lemma GetOutcomes(cfg: Config, key: string, section: string)
    ensures section in cfg.sections && key in cfg.sections[section] ==>
      Get(cfg, key, section) == Ok(Normalize(cfg.sections[section][key]))
    ensures section in cfg.sections && key !in cfg.sections[section] ==>
      Get(cfg, key, section) == Err(NoOption(key, section))
  {
  }
}
