/**
 * How `npm install`/`npm ci` turns the output of `npm config list` into the project `.npmrc`
 * that points npm at the Artifactory registry, and how the same scan classifies which
 * dependency types (dev, prod) npm installs.
 *
 * The scan is modelled on the lines the scanner yields; the text the command writes is the
 * directives kept or rewritten from those lines, each followed by a newline, then the fixed tail.
 */
module NpmrcConfig {
  import opened Wrappers
  import opened Text
  import opened Seqs

  /** isValidKey: keys the command writes itself, comments and scoped or per-registry settings are not copied. */
  predicate IsValidKey(key: string): (valid: bool)
    ensures valid <==>
      && key !in {"registry", "metrics-registry", "json"}
      && (|key| == 0 || (key[0] != '@' && key[0] != ';' && !(|key| >= 2 && key[0] == '/' && key[1] == '/')))
  {
    && !HasPrefix(key, "//")
    && !HasPrefix(key, ";")
    && !HasPrefix(key, "@")
    && key != "registry"
    && key != "metrics-registry"
    && key != "json"
  }

  /** The field typeRestriction: which dependency listings the build info is collected from. */
  datatype TypeRestriction = DefaultRestriction | All | DevOnly | ProdOnly

  /** The restriction setTypeRestriction leaves after seeing one kept `key = value` setting. */
  function NextRestriction(current: TypeRestriction, key: string, value: string): TypeRestriction
  {
    if key == "omit" then
      if Contains(value, "dev") then ProdOnly else All
    else if current == DefaultRestriction then
      if key == "only" then
        if Contains(value, "prod") then ProdOnly
        else if Contains(value, "dev") then DevOnly
        else current
      else if key == "production" && Contains(value, "true") then ProdOnly
      else current
    else current
  }

  /** The trimmed key and value of a line that has an '=' and a valid key: the lines whose setting is kept. */
  function Setting(line: string): Option<(string, string)>
  {
    var (left, right) := SplitOnce(line, '=');
    if right.Some? && IsValidKey(TrimSpace(left)) then Some((TrimSpace(left), TrimSpace(right.value)))
    else None
  }

  /** A value npm prints as a list: `[...]`. */
  predicate IsBracketed(value: string)
  {
    HasPrefix(value, "[") && HasSuffix(value, "]")
  }

  /** The comma-separated elements of a list value, untrimmed: one trailing ']' and one leading '[' are dropped first. */
  function ArrayElements(value: string): seq<string>
  {
    Split(TrimPrefix(TrimSuffix(value, "]"), "["), ',')
  }

  /** addArrayConfigs: the `key[] = element` directives a list value expands to; the empty list `[]` expands to nothing. */
  function ArrayDirectives(key: string, value: string): seq<string>
  {
    if value == "[]" then [] else ElementDirectives(key, ArrayElements(value))
  }

  /** One `key[] = element` directive per element, in order. */
  function ElementDirectives(key: string, elements: seq<string>): seq<string>
  {
    seq(|elements|, i requires 0 <= i < |elements| => key + "[] = " + elements[i])
  }

  /** Adding element i's directive and a newline to the terminated directives of the first i elements gives those of the first i + 1. */
  lemma ElementDirectivesStep(conf: seq<string>, key: string, elements: seq<string>, i: nat)
    requires i < |elements|
    ensures conf + Terminated(ElementDirectives(key, elements[..i + 1]))
         == conf + Terminated(ElementDirectives(key, elements[..i])) + [key + "[] = " + elements[i], "\n"]
  {
    var before := ElementDirectives(key, elements[..i]);
    var d := key + "[] = " + elements[i];
    assert ElementDirectives(key, elements[..i + 1]) == before + [d];
    TerminatedSnoc(before, d);
  }

  /**
   * A non-empty list value expands to one directive per element, in order, and no element is lost:
   * the elements joined with commas and put back between brackets give the value again.
   */
  lemma ArrayDirectivesElements(key: string, value: string)
    requires IsBracketed(value) && value != "[]"
    ensures |ArrayDirectives(key, value)| == |ArrayElements(value)|
    ensures forall i :: 0 <= i < |ArrayElements(value)| ==> ArrayDirectives(key, value)[i] == key + "[] = " + ArrayElements(value)[i]
    ensures "[" + JoinWith(ArrayElements(value), ',') + "]" == value
  {
    var inner := TrimPrefix(TrimSuffix(value, "]"), "[");
    var trimmed := TrimSuffix(value, "]");
    assert value[0] == value[..1][0] == '[';
    assert trimmed[..1] == value[..1];
    SplitJoin(inner, ',');
  }

  /** The directives one line of `npm config list` contributes to the project `.npmrc`. */
  function LineDirectives(line: string, registry: string): seq<string>
  {
    if line == "" then []
    else
      var (left, right) := SplitOnce(line, '=');
      var key := TrimSpace(left);
      if right.Some? && IsValidKey(key) then
        var value := TrimSpace(right.value);
        if IsBracketed(value) then ArrayDirectives(key, value) else [line]
      else if HasPrefix(left, "@") then [left + " = " + registry]
      else []
  }

  /** The directives of all lines, in line order. */
  function ConfigDirectives(lines: seq<string>, registry: string): seq<string>
  {
    FlatMap(line => LineDirectives(line, registry), lines)
  }

  /** The kept setting of every line, in line order (None for the lines whose setting is not kept). */
  function Settings(lines: seq<string>): (settings: seq<Option<(string, string)>>)
    ensures |settings| == |lines|
  {
    seq(|lines|, i requires 0 <= i < |lines| => Setting(lines[i]))
  }

  /** The restriction after setTypeRestriction has seen the kept settings in order, starting from `start`. */
  function RestrictionAfter(start: TypeRestriction, settings: seq<Option<(string, string)>>): TypeRestriction
  {
    if |settings| == 0 then start
    else
      var before := RestrictionAfter(start, settings[..|settings| - 1]);
      match settings[|settings| - 1]
      case Some((key, value)) => NextRestriction(before, key, value)
      case None => before
  }

  /** Each directive followed by its own newline, as the pieces the command joins. */
  function Terminated(directives: seq<string>): seq<string>
  {
    FlatMap(Newlined, directives)
  }

  /** One directive followed by its newline. */
  function Newlined(directive: string): seq<string>
  {
    [directive, "\n"]
  }

  /** The fixed pieces written after the translated lines: the json flag, the registry, the auth text. */
  function TailPieces(jsonOutput: bool, registry: string, npmAuth: string): seq<string>
  {
    ["json = ", FormatBool(jsonOutput), "\n", "registry = ", registry, "\n", npmAuth]
  }

  /** The text of the project `.npmrc`. */
  function NpmrcText(lines: seq<string>, jsonOutput: bool, registry: string, npmAuth: string): string
  {
    Concat(Terminated(ConfigDirectives(lines, registry)) + TailPieces(jsonOutput, registry, npmAuth))
  }

  /**
   * A directive that may reach the project `.npmrc` from the user's configuration: it has an '=',
   * and either its key is one the command does not reserve, or it is a scoped-registry override
   * whose value is the Artifactory registry.
   */
  predicate Allowed(directive: string, registry: string)
  {
    var (left, right) := SplitOnce(directive, '=');
    && right.Some?
    && (IsValidKey(TrimSpace(left)) || (HasPrefix(left, "@") && right.value == " " + registry))
  }

  // ---------------------------------------------------------------------------------------
  // The translated lines

  /** Every line is translated on its own: its directives stand between those of the lines before and after it. */
  lemma ConfigDirectivesAt(lines: seq<string>, i: nat, registry: string)
    requires i < |lines|
    ensures ConfigDirectives(lines, registry)
         == ConfigDirectives(lines[..i], registry) + LineDirectives(lines[i], registry) + ConfigDirectives(lines[i + 1..], registry)
  {
    FlatMapAt(line => LineDirectives(line, registry), lines, i);
  }

  /** A line whose raw left part starts with '@' (a scoped registry) is redirected to the Artifactory registry. */
  lemma ScopedLineRedirected(line: string, registry: string)
    requires HasPrefix(SplitOnce(line, '=').0, "@")
    ensures LineDirectives(line, registry) == [SplitOnce(line, '=').0 + " = " + registry]
  {
    var left := SplitOnce(line, '=').0;
    assert left[0] == left[..1][0] == '@';
    TrimSpaceKeepsFirst(left);
    var key := TrimSpace(left);
    assert key[..1] == "@";
    assert !IsValidKey(key);
  }

  /** Appending "[]" to a key the command does not reserve gives a key it does not reserve. */
  lemma ArrayKeyValid(key: string)
    requires IsValidKey(key)
    ensures IsValidKey(key + "[]")
  {
    var k := key + "[]";
    assert k[|k| - 1] == ']';
    assert k != "registry" && k != "metrics-registry" && k != "json" by {
      assert "registry"[7] == 'y' && "metrics-registry"[15] == 'y' && "json"[3] == 'n';
    }
    if |key| >= 2 {
      assert k[..2] == key[..2] && k[..1] == key[..1];
    } else if |key| == 1 {
      assert k[..2] == [key[0], '['] && k[..1] == key[..1];
    } else {
      assert k[..2] == "[]" && k[..1] == "[";
    }
  }

  /** A kept list setting `key = [a,b]` becomes `key[] = a` and `key[] = b`: a key the command does not reserve. */
  lemma ArrayDirectiveAllowed(key: string, element: string, registry: string)
    requires IsValidKey(key) && '=' !in key
    requires key == [] || (!IsSpace(key[0]) && !IsSpace(key[|key| - 1]))
    ensures Allowed(key + "[] = " + element, registry)
  {
    assert key + "[] = " + element == (key + "[] ") + ['='] + (" " + element);
    assert '=' !in key + "[] ";
    SplitOnceAt(key + "[] ", " " + element, '=');
    TrimSpaceArrayKey(key);
    ArrayKeyValid(key);
  }

  /** Every `key[] = element` directive of a kept list setting is allowed. */
  lemma ArrayDirectivesAllowed(left: string, value: string, registry: string)
    requires '=' !in left && IsValidKey(TrimSpace(left)) && IsBracketed(value)
    ensures forall d :: d in ArrayDirectives(TrimSpace(left), value) ==> Allowed(d, registry)
  {
    var key := TrimSpace(left);
    TrimSpaceSubstring(left, '=');
    forall d | d in ArrayDirectives(key, value) ensures Allowed(d, registry) {
      var elements := ArrayElements(value);
      var i :| 0 <= i < |elements| && d == key + "[] = " + elements[i];
      ArrayDirectiveAllowed(key, elements[i], registry);
    }
  }

  /** The override `@scope = <registry>` written for a scoped registry line is allowed. */
  lemma ScopedDirectiveAllowed(left: string, registry: string)
    requires '=' !in left && HasPrefix(left, "@")
    ensures Allowed(left + " = " + registry, registry)
  {
    assert left + " = " + registry == (left + " ") + ['='] + (" " + registry);
    assert '=' !in left + " ";
    SplitOnceAt(left + " ", " " + registry, '=');
    assert (left + " ")[..1] == left[..1];
  }

  /** Each directive a line contributes is allowed: no reserved setting of the user's reaches the project file. */
  lemma LineDirectivesAllowed(line: string, registry: string)
    ensures forall d :: d in LineDirectives(line, registry) ==> Allowed(d, registry)
  {
    var split := SplitOnce(line, '=');
    var left := split.0;
    var key := TrimSpace(left);
    if line == "" {
    } else if split.1.Some? && IsValidKey(key) {
      var value := TrimSpace(split.1.value);
      if IsBracketed(value) {
        ArrayDirectivesAllowed(left, value, registry);
      } else {
        assert LineDirectives(line, registry) == [line];
        SplitOnceAt(left, split.1.value, '=');
      }
    } else if HasPrefix(left, "@") {
      ScopedDirectiveAllowed(left, registry);
    }
  }

  /**
   * Every directive taken from `npm config list` either has a key the command does not reserve or
   * is a scoped-registry override pointing at the Artifactory registry; in particular no `registry`,
   * `json`, comment or per-registry auth line of the user's is copied.
   */
  lemma DirectivesAllowed(lines: seq<string>, registry: string)
    ensures forall d :: d in ConfigDirectives(lines, registry) ==> Allowed(d, registry)
  {
    forall d | d in ConfigDirectives(lines, registry) ensures Allowed(d, registry) {
      FlatMapMember(line => LineDirectives(line, registry), lines, d);
      var i :| 0 <= i < |lines| && d in LineDirectives(lines[i], registry);
      LineDirectivesAllowed(lines[i], registry);
    }
  }

  /** The fixed tail joined: the json flag, the registry, the auth text, in that order. */
  lemma TailText(jsonOutput: bool, registry: string, npmAuth: string)
    ensures Concat(TailPieces(jsonOutput, registry, npmAuth))
         == "json = " + FormatBool(jsonOutput) + "\n" + "registry = " + registry + "\n" + npmAuth
  {
    var tail := TailPieces(jsonOutput, registry, npmAuth);
    assert Concat(tail[..1]) == "json = " by { assert tail[..1][..0] == []; }
    assert Concat(tail[..2]) == "json = " + FormatBool(jsonOutput) by { assert tail[..2][..1] == tail[..1]; }
    assert Concat(tail[..3]) == "json = " + FormatBool(jsonOutput) + "\n" by { assert tail[..3][..2] == tail[..2]; }
    assert Concat(tail[..4]) == "json = " + FormatBool(jsonOutput) + "\n" + "registry = " by { assert tail[..4][..3] == tail[..3]; }
    assert Concat(tail[..5]) == "json = " + FormatBool(jsonOutput) + "\n" + "registry = " + registry by { assert tail[..5][..4] == tail[..4]; }
    assert Concat(tail[..6]) == "json = " + FormatBool(jsonOutput) + "\n" + "registry = " + registry + "\n" by { assert tail[..6][..5] == tail[..5]; }
    assert tail == tail[..7];
  }

  /** The file ends with the json flag, then the registry, then the auth text, after the translated lines. */
  lemma NpmrcTextLayout(lines: seq<string>, jsonOutput: bool, registry: string, npmAuth: string)
    ensures NpmrcText(lines, jsonOutput, registry, npmAuth)
         == Concat(Terminated(ConfigDirectives(lines, registry)))
            + "json = " + FormatBool(jsonOutput) + "\n" + "registry = " + registry + "\n" + npmAuth
  {
    ConcatAppend(Terminated(ConfigDirectives(lines, registry)), TailPieces(jsonOutput, registry, npmAuth));
    TailText(jsonOutput, registry, npmAuth);
    AppendSeven(Concat(Terminated(ConfigDirectives(lines, registry))), "json = ", FormatBool(jsonOutput), "\n", "registry = ", registry, "\n", npmAuth);
  }

  /** Appending seven pieces joined first is appending them one by one. */
  lemma AppendSeven(s: string, a: string, b: string, c: string, d: string, e: string, f: string, g: string)
    ensures s + (a + b + c + d + e + f + g) == s + a + b + c + d + e + f + g
  {
  }

  // ---------------------------------------------------------------------------------------
  // The scan, one line at a time

  /** The directives and settings of one more line extend those of the lines before it. */
  lemma LinesStep(lines: seq<string>, i: nat, registry: string)
    requires i < |lines|
    ensures ConfigDirectives(lines[..i + 1], registry) == ConfigDirectives(lines[..i], registry) + LineDirectives(lines[i], registry)
    ensures Settings(lines[..i + 1]) == Settings(lines[..i]) + [Setting(lines[i])]
  {
    var prefix := lines[..i + 1];
    assert prefix[..|prefix| - 1] == lines[..i] && prefix[|prefix| - 1] == lines[i];
    assert Settings(prefix) == Settings(lines[..i]) + [Setting(lines[i])];
  }

  /** What one line contributes, by the case the scan takes. */
  lemma LineCases(line: string, registry: string)
    ensures var (left, right) := SplitOnce(line, '=');
      if line == "" then LineDirectives(line, registry) == [] && Setting(line) == None
      else if right.Some? && IsValidKey(TrimSpace(left)) then
        && Setting(line) == Some((TrimSpace(left), TrimSpace(right.value)))
        && LineDirectives(line, registry)
           == if IsBracketed(TrimSpace(right.value)) then ArrayDirectives(TrimSpace(left), TrimSpace(right.value)) else [line]
      else
        && Setting(line) == None
        && LineDirectives(line, registry) == if HasPrefix(left, "@") then [left + " = " + registry] else []
  {
  }

  /**
   * The scan's step on the joined text: a configuration that joins to the terminated directives
   * `before`, extended by the terminated directives `added`, joins to those of `before + added`.
   */
  lemma JoinedStep(conf: seq<string>, next: seq<string>, before: seq<string>, added: seq<string>)
    requires Concat(conf) == Concat(Terminated(before))
    requires Concat(next) == Concat(conf) + Concat(Terminated(added))
    ensures Concat(next) == Concat(Terminated(before + added))
  {
    FlatMapAppend(Newlined, before, added);
    ConcatAppend(Terminated(before), Terminated(added));
  }

  /** One directive and its newline. */
  lemma TerminatedOne(d: string)
    ensures Terminated([d]) == [d, "\n"]
  {
    assert [d][..0] == [];
    assert FlatMap(Newlined, [d]) == FlatMap(Newlined, []) + Newlined(d);
  }

  /** One more directive adds itself and its newline at the end. */
  lemma TerminatedSnoc(ds: seq<string>, d: string)
    ensures Terminated(ds + [d]) == Terminated(ds) + [d, "\n"]
  {
    assert (ds + [d])[..|ds|] == ds;
  }

  /** The four pieces written for a scoped registry join to the override directive and its newline. */
  lemma ScopedPieces(left: string, registry: string)
    ensures Concat([left, " = ", registry, "\n"]) == Concat(Terminated([left + " = " + registry]))
  {
    TerminatedOne(left + " = " + registry);
    var p := [left, " = ", registry, "\n"];
    assert Concat(p[..1]) == left by { assert p[..1][..0] == []; }
    assert Concat(p[..2]) == left + " = " by { assert p[..2][..1] == p[..1]; }
    assert Concat(p[..3]) == left + " = " + registry by { assert p[..3][..2] == p[..2]; }
    assert Concat(p) == left + " = " + registry + "\n" by { assert p[..3] == p[..|p| - 1]; }
    var q := [left + " = " + registry, "\n"];
    assert Concat(q) == left + " = " + registry + "\n" by {
      assert q[..1][..0] == [];
      assert q[..|q| - 1] == q[..1];
    }
  }

  // ---------------------------------------------------------------------------------------
  // The dependency type restriction

  /** A kept setting whose key is `omit`. */
  predicate IsOmit(setting: Option<(string, string)>)
  {
    setting.Some? && setting.value.0 == "omit"
  }

  lemma {:induction false} RestrictionAppend(start: TypeRestriction, a: seq<Option<(string, string)>>, b: seq<Option<(string, string)>>)
    ensures RestrictionAfter(start, a + b) == RestrictionAfter(RestrictionAfter(start, a), b)
    decreases |b|
  {
    if |b| == 0 {
      assert a + b == a;
    } else {
      assert (a + b)[..|a + b| - 1] == a + b[..|b| - 1];
      RestrictionAppend(start, a, b[..|b| - 1]);
    }
  }

  /** Once a restriction is set, settings other than `omit` no longer change it. */
  lemma {:induction false} RestrictionSticks(start: TypeRestriction, settings: seq<Option<(string, string)>>)
    requires start != DefaultRestriction
    requires forall j :: 0 <= j < |settings| ==> !IsOmit(settings[j])
    ensures RestrictionAfter(start, settings) == start
  {
    if |settings| > 0 {
      RestrictionSticks(start, settings[..|settings| - 1]);
      assert !IsOmit(settings[|settings| - 1]);
    }
  }

  /** The last `omit` setting decides the restriction, whatever `only` or `production` say before or after it. */
  lemma {:induction false} OmitTakesPrecedence(start: TypeRestriction, settings: seq<Option<(string, string)>>, i: nat, value: string)
    requires i < |settings| && settings[i] == Some(("omit", value))
    requires forall j :: i < j < |settings| ==> !IsOmit(settings[j])
    ensures RestrictionAfter(start, settings) == if Contains(value, "dev") then ProdOnly else All
  {
    var prefix, rest := settings[..i + 1], settings[i + 1..];
    assert settings == prefix + rest;
    RestrictionAppend(start, prefix, rest);
    assert prefix[..|prefix| - 1] == settings[..i] && prefix[|prefix| - 1] == settings[i];
    var after := RestrictionAfter(start, prefix);
    assert after == NextRestriction(RestrictionAfter(start, settings[..i]), "omit", value);
    forall j | 0 <= j < |rest| ensures !IsOmit(rest[j]) {
      assert rest[j] == settings[i + 1 + j];
    }
    RestrictionSticks(after, rest);
  }

  /** What a deprecated setting (`only`, `production`) selects on its own; DefaultRestriction when it selects nothing. */
  function DeprecatedChoice(key: string, value: string): TypeRestriction
  {
    if key == "only" && Contains(value, "prod") then ProdOnly
    else if key == "only" && Contains(value, "dev") then DevOnly
    else if key == "production" && Contains(value, "true") then ProdOnly
    else DefaultRestriction
  }

  /** The choice of the first setting, in dump order, that selects something. */
  function FirstDeprecatedChoice(settings: seq<Option<(string, string)>>): TypeRestriction
  {
    if |settings| == 0 then DefaultRestriction
    else
      var choice := match settings[0] case Some((k, v)) => DeprecatedChoice(k, v) case None => DefaultRestriction;
      if choice != DefaultRestriction then choice else FirstDeprecatedChoice(settings[1..])
  }

  /**
   * Without `omit`, the restriction the scan leaves is the one selected by the first `only` or
   * `production` setting that selects one: npm prints its configuration by priority, highest first.
   */
  lemma {:induction false} FirstDeprecatedWins(settings: seq<Option<(string, string)>>)
    requires forall j :: 0 <= j < |settings| ==> !IsOmit(settings[j])
    ensures RestrictionAfter(DefaultRestriction, settings) == FirstDeprecatedChoice(settings)
  {
    if |settings| > 0 {
      assert settings == [settings[0]] + settings[1..];
      RestrictionAppend(DefaultRestriction, [settings[0]], settings[1..]);
      assert [settings[0]][..0] == [];
      var first := RestrictionAfter(DefaultRestriction, [settings[0]]);
      assert !IsOmit(settings[0]);
      var rest := settings[1..];
      forall j | 0 <= j < |rest| ensures !IsOmit(rest[j]) {
        assert rest[j] == settings[j + 1];
      }
      if first == DefaultRestriction {
        FirstDeprecatedWins(rest);
      } else {
        RestrictionSticks(first, rest);
      }
    }
  }
}

/** The restriction a few configuration dumps leave. */
module NpmrcExample {
  import opened Wrappers
  import opened Text
  import opened NpmrcConfig

  /** `omit = dev` decides even when a deprecated `only = prod` follows it. */
  lemma OmitThenOnly()
    ensures RestrictionAfter(DefaultRestriction, [Some(("omit", "dev")), Some(("only", "prod"))]) == ProdOnly
  {
    var settings := [Some(("omit", "dev")), Some(("only", "prod"))];
    assert settings[..1][..0] == [] && settings[..1] == [Some(("omit", "dev"))];
    assert Contains("dev", "dev");
  }

  /** `production = true` alone asks for production dependencies only. */
  lemma ProductionOnly()
    ensures RestrictionAfter(DefaultRestriction, [Some(("production", "true"))]) == ProdOnly
  {
    assert [Some(("production", "true"))][..0] == [];
    assert Contains("true", "true");
  }

  /** Of two deprecated settings, the first printed (the one of highest priority) wins. */
  lemma FirstOnlyWins()
    ensures RestrictionAfter(DefaultRestriction, [Some(("only", "dev")), Some(("only", "prod"))]) == DevOnly
  {
    var settings := [Some(("only", "dev")), Some(("only", "prod"))];
    assert settings[..1][..0] == [] && settings[..1] == [Some(("only", "dev"))];
    assert !HasPrefix("dev", "prod") && !HasPrefix("ev", "prod") && !HasPrefix("v", "prod") && !HasPrefix("", "prod");
    assert "dev"[1..] == "ev" && "ev"[1..] == "v" && "v"[1..] == "";
    assert !Contains("dev", "prod");
    assert Contains("dev", "dev");
  }
}

/** How a scoped registry line of a dump is translated. */
module NpmrcLineExample {
  import opened Wrappers
  import opened Text
  import opened NpmrcConfig

  /**
   * `@scope:registry = url` keeps its raw left part, trailing space included (so two spaces precede
   * the '='), and is pointed at the Artifactory registry instead of `url`.
   */
  lemma ScopedRegistryLine(scope: string, url: string, registry: string)
    requires HasPrefix(scope, "@") && '=' !in scope
    ensures LineDirectives(scope + ":registry = " + url, registry) == [scope + ":registry " + " = " + registry]
  {
    var left := scope + ":registry ";
    var line := scope + ":registry = " + url;
    assert line == left + ['='] + (" " + url);
    assert '=' !in left;
    SplitOnceAt(left, " " + url, '=');
    assert left[..1] == scope[..1];
    ScopedLineRedirected(line, registry);
  }
}
