/** Include directives: the `--include <scope>[=<ENV_VAR>]` option values,
    their parser and the default applied when none is given. */
module Include {
  import opened Wrappers
  import opened Strings
  import opened Errors

  /** One include: configure the registry of `scope` with the token held in
      the environment variable `envVar`. */
  datatype Directive = Directive(scope: string, envVar: string)

  /** The environment variable used when a directive names none. */
  const DefaultEnvVar: string := "NODE_AUTH_TOKEN"

  /** The three accepted include targets: the default registry, the
      publish registry, or a package scope such as `@my-scope`. */
  predicate ValidScope(scope: string) {
    scope == "default" || scope == "publish" || StartsWith(scope, "@")
  }

  /** What every directive the parser produces satisfies. */
  predicate WellFormed(d: Directive) {
    && ValidScope(d.scope) && Trimmed(d.scope)
    && d.envVar != "" && Trimmed(d.envVar)
  }

  predicate IsQuote(c: char) {
    c == '\'' || c == '"'
  }

  /** The strings the pattern `^['"](.*)['"]$` matches: a quote at each end
      (not necessarily the same one) and no line terminator in between. */
  predicate QuoteWrapped(s: string) {
    && |s| >= 2 && IsQuote(s[0]) && IsQuote(s[|s| - 1])
    && forall k :: 1 <= k < |s| - 1 ==> !IsLineTerminator(s[k])
  }

  /** `unquote`: strips one pair of surrounding quotes, if there is one. */
  function Unquote(s: string): (r: string)
    ensures r == s || (|s| >= 2 && r == s[1..|s| - 1])
  {
    if QuoteWrapped(s) then s[1..|s| - 1] else s
  }

  lemma DefaultEnvVarTrimmed()
    ensures DefaultEnvVar != "" && Trimmed(DefaultEnvVar)
  {
  }

  /** `acc || []`: an absent accumulator is the empty list. */
  function Accumulated(acc: Option<seq<Directive>>): seq<Directive> {
    match acc
    case None => []
    case Some(ds) => ds
  }

  /** Splits at the first `=`: the text before it and the text after it,
      or the whole text and `""` when there is no `=`. */
  function SplitAtEq(raw: string): (parts: (string, string))
    ensures NoEq(parts.0)
    ensures NoEq(raw) ==> parts == (raw, "")
    ensures !NoEq(raw) ==> parts.0 + "=" + parts.1 == raw
  {
    var eq := IndexOf(raw, "=");
    if eq == -1 then
      assert NoEq(raw) by {
        forall k | 0 <= k < |raw| ensures raw[k] != '=' {
          assert !OccursAt(raw, "=", k);
          assert raw[k..k + 1] == [raw[k]];
        }
      }
      (raw, "")
    else
      assert raw[eq] == '=' by {
        assert raw[eq..eq + 1] == "=";
      }
      assert raw == raw[..eq] + "=" + raw[eq + 1..] by {
        assert raw[eq..eq + 1] == "=";
      }
      assert NoEq(raw[..eq]) by {
        forall k | 0 <= k < eq ensures raw[k] != '=' {
          assert !OccursAt(raw, "=", k);
          assert raw[k..k + 1] == [raw[k]];
        }
      }
      (raw[..eq], raw[eq + 1..])
  }

  predicate NoEq(s: string) {
    forall k :: 0 <= k < |s| ==> s[k] != '='
  }

  /** Each side of the split is unquoted, then trimmed. */
  function CleanSide(side: string): string {
    Trim(Unquote(side))
  }

  /** `parseInclude`: trims and unquotes the token, splits it at its first
      `=`, unquotes and trims each side, validates the scope, and appends
      the directive to the accumulated list. */
  function ParseInclude(token: string, acc: Option<seq<Directive>>): (r: Result<seq<Directive>, Error>)
    ensures r.Success? ==>
              && |r.value| == |Accumulated(acc)| + 1
              && r.value[..|Accumulated(acc)|] == Accumulated(acc)
              && WellFormed(r.value[|Accumulated(acc)|])
    ensures r.Failure? ==>
              || r.error == InvalidIncludeValue(token)
              || (r.error.InvalidIncludeTarget? && r.error.scope != "" && !ValidScope(r.error.scope))
  {
    var raw := Unquote(Trim(token));
    if raw == "" then Failure(InvalidIncludeValue(token))
    else
      var parts := SplitAtEq(raw);
      MakeDirective(token, acc, CleanSide(parts.0), CleanSide(parts.1))
  }

  /** The checks `parseInclude` makes once the two sides are cleaned: an
      empty scope is an invalid value, an empty variable is replaced by
      `NODE_AUTH_TOKEN`, and the scope must be an accepted target. */
  function MakeDirective(token: string, acc: Option<seq<Directive>>, scope: string, env: string): (r: Result<seq<Directive>, Error>)
    requires Trimmed(scope) && Trimmed(env)
    ensures scope == "" ==> r == Failure(InvalidIncludeValue(token))
    ensures scope != "" && !ValidScope(scope) ==> r == Failure(InvalidIncludeTarget(scope))
    ensures scope != "" && ValidScope(scope) && env != "" ==> r == Success(Accumulated(acc) + [Directive(scope, env)])
    ensures scope != "" && ValidScope(scope) && env == "" ==> r == Success(Accumulated(acc) + [Directive(scope, DefaultEnvVar)])
    ensures r.Success? ==>
              && |r.value| == |Accumulated(acc)| + 1
              && r.value[..|Accumulated(acc)|] == Accumulated(acc)
              && WellFormed(r.value[|Accumulated(acc)|])
    ensures r.Failure? ==>
              || r.error == InvalidIncludeValue(token)
              || (r.error.InvalidIncludeTarget? && r.error.scope != "" && !ValidScope(r.error.scope))
  {
    if scope == "" then Failure(InvalidIncludeValue(token))
    else
      var envVar := if env == "" then DefaultEnvVar else env;
      if !ValidScope(scope) then Failure(InvalidIncludeTarget(scope))
      else
        DefaultEnvVarTrimmed();
        Success(Accumulated(acc) + [Directive(scope, envVar)])
  }

  /** `ensureIncludes`: an absent or empty include list becomes the single
      directive `default=NODE_AUTH_TOKEN`; any other list is kept as is. */
  function EnsureIncludes(given: Option<seq<Directive>>): (r: seq<Directive>)
    ensures |r| > 0
    ensures given.Some? && |given.value| > 0 ==> r == given.value
    ensures given.None? || |given.value| == 0 ==> r == [Directive("default", DefaultEnvVar)]
  {
    match given
    case Some(ds) => if |ds| == 0 then [Directive("default", DefaultEnvVar)] else ds
    case None => [Directive("default", DefaultEnvVar)]
  }

  /** The canonical `<scope>=<ENV_VAR>` spelling of a directive. */
  function Render(d: Directive): string {
    d.scope + "=" + d.envVar
  }

  /** `unquote` changes a string exactly when the pattern matches it. */
  lemma UnquoteChangesExactlyWrapped(s: string)
    ensures Unquote(s) != s <==> QuoteWrapped(s)
  {
    if QuoteWrapped(s) {
      assert |Unquote(s)| == |s| - 2;
    }
  }

  /** `unquote` removes one pair of quotes, which need not match, around
      any text without line terminators. */
  lemma UnquoteStripsPair(q1: char, text: string, q2: char)
    requires IsQuote(q1) && IsQuote(q2)
    requires forall k :: 0 <= k < |text| ==> !IsLineTerminator(text[k])
    ensures Unquote([q1] + text + [q2]) == text
  {
    var s := [q1] + text + [q2];
    assert forall k :: 1 <= k < |s| - 1 ==> s[k] == text[k - 1];
    assert s[1..|s| - 1] == text;
  }

  /** Only one layer of quotes goes: `"'a'"` becomes `'a'`. */
  lemma UnquoteOneLayerOnly()
    ensures Unquote("\"'a'\"") == "'a'"
    ensures Unquote("'a'") == "a"
  {
    UnquoteStripsPair('"', "'a'", '"');
    UnquoteStripsPair('\'', "a", '\'');
  }

  /** A well-formed scope never starts with a quote, so a token starting
      with it is never quote-wrapped. */
  lemma ScopeStartIsNotQuote(scope: string, rest: string)
    requires ValidScope(scope)
    ensures |scope + rest| > 0 && !IsQuote((scope + rest)[0])
    ensures Unquote(scope + rest) == scope + rest
  {
    if scope == "default" {
      assert (scope + rest)[0] == 'd';
    } else if scope == "publish" {
      assert (scope + rest)[0] == 'p';
    } else {
      assert scope[..1] == "@";
      assert (scope + rest)[0] == '@';
    }
  }

  /** Splitting `left=right` where `left` has no `=` recovers both sides. */
  lemma SplitAtEqOfJoin(left: string, right: string)
    requires NoEq(left)
    ensures SplitAtEq(left + "=" + right) == (left, right)
  {
    var raw := left + "=" + right;
    assert raw[|left|] == '=';
    var parts := SplitAtEq(raw);
    assert parts.0 == raw[..|left|] == left;
    assert parts.1 == raw[|left| + 1..] == right;
  }

  /** Unquoting and trimming leave a trimmed, unquoted text alone. */
  lemma CleanSideOfPlain(side: string)
    requires Trimmed(side) && !QuoteWrapped(side)
    ensures CleanSide(side) == side
  {
    TrimOfTrimmed(side);
  }

  /** `parseInclude` on a token that trims and unquotes to itself. */
  lemma ParseIncludeOfPlain(token: string, acc: Option<seq<Directive>>, left: string, right: string)
    requires token != "" && Trimmed(token) && !QuoteWrapped(token)
    requires SplitAtEq(token) == (left, right)
    requires Trimmed(left) && !QuoteWrapped(left) && Trimmed(right) && !QuoteWrapped(right)
    ensures ParseInclude(token, acc) == MakeDirective(token, acc, left, right)
  {
    CleanSideOfPlain(token);
    CleanSideOfPlain(left);
    CleanSideOfPlain(right);
  }

  /** Parsing the canonical spelling of a well-formed directive whose scope
      has no `=` and whose variable is not quote-wrapped gives back that
      directive, appended to the accumulated list. */
  lemma ParseRenderRoundTrip(d: Directive, acc: Option<seq<Directive>>)
    requires WellFormed(d) && NoEq(d.scope) && !QuoteWrapped(d.envVar)
    ensures ParseInclude(Render(d), acc) == Success(Accumulated(acc) + [d])
  {
    var token := Render(d);
    ScopeStartIsNotQuote(d.scope, "=" + d.envVar);
    assert token == d.scope + ("=" + d.envVar);
    assert token[|token| - 1] == d.envVar[|d.envVar| - 1];
    SplitAtEqOfJoin(d.scope, d.envVar);
    ScopeStartIsNotQuote(d.scope, "");
    assert d.scope + "" == d.scope;
    ParseIncludeOfPlain(token, acc, d.scope, d.envVar);
  }

  /** A well-formed scope given alone, without `=`, gets `NODE_AUTH_TOKEN`. */
  lemma ParseScopeAloneDefaultsEnv(scope: string, acc: Option<seq<Directive>>)
    requires ValidScope(scope) && Trimmed(scope) && NoEq(scope)
    ensures ParseInclude(scope, acc) == Success(Accumulated(acc) + [Directive(scope, DefaultEnvVar)])
  {
    ScopeStartIsNotQuote(scope, "");
    assert scope + "" == scope;
    ParseIncludeOfPlain(scope, acc, scope, "");
  }

  /** A token of whitespace only, the empty token included, is an invalid
      include value. */
  lemma ParseBlankRejected(token: string, acc: Option<seq<Directive>>)
    requires AllWhitespace(token)
    ensures ParseInclude(token, acc) == Failure(InvalidIncludeValue(token))
  {
    assert Trim(token) == "";
  }

  /** A non-empty scope token other than the three accepted targets is an
      invalid include target, reported by its scope. */
  lemma ParseBadTargetRejected(scope: string, acc: Option<seq<Directive>>)
    requires scope != "" && Trimmed(scope) && !ValidScope(scope) && !QuoteWrapped(scope) && NoEq(scope)
    ensures ParseInclude(scope, acc) == Failure(InvalidIncludeTarget(scope))
  {
    ParseIncludeOfPlain(scope, acc, scope, "");
  }

  /** `parseInclude` once the token has been trimmed and unquoted to a
      non-empty `raw` whose two sides clean to `scope` and `env`. */
  lemma ParseIncludeOfRaw(token: string, acc: Option<seq<Directive>>, raw: string, left: string, right: string,
                          scope: string, env: string)
    requires Unquote(Trim(token)) == raw && raw != ""
    requires SplitAtEq(raw) == (left, right)
    requires CleanSide(left) == scope && CleanSide(right) == env
    ensures Trimmed(scope) && Trimmed(env)
    ensures ParseInclude(token, acc) == MakeDirective(token, acc, scope, env)
  {
  }

  /** An empty side stays empty. */
  lemma CleanSideOfEmpty()
    ensures CleanSide("") == ""
  {
    assert Trim("") == "";
  }

  /** A scope is left alone by cleaning. */
  lemma CleanSideOfScope(scope: string)
    requires ValidScope(scope) && Trimmed(scope)
    ensures CleanSide(scope) == scope
  {
    assert !IsQuote(scope[0]) by {
      if scope != "default" && scope != "publish" {
        assert scope[..1] == "@";
      }
    }
    CleanSideOfPlain(scope);
  }

  /** The scope side of a split, padded on the right with the whitespace
      that stood before the `=`, cleans to the scope. */
  lemma CleanSideOfPadded(scope: string, ws: string)
    requires scope != "" && Trimmed(scope) && !IsQuote(scope[0]) && AllWhitespace(ws)
    ensures CleanSide(scope + ws) == scope
  {
    assert (scope + ws)[0] == scope[0];
    assert Unquote(scope + ws) == scope + ws;
    TrimPaddedRight(scope, ws);
  }

  /** Trimming and unquoting leave alone a token that starts with neither
      whitespace nor a quote and does not end in whitespace. */
  lemma UnquoteTrimOfPlain(token: string)
    requires token != "" && Trimmed(token) && !IsQuote(token[0])
    ensures Unquote(Trim(token)) == token
  {
    TrimOfTrimmed(token);
  }

  /** The `=` after a scope and some whitespace is the first one, so the
      split happens there. */
  lemma SplitAfterPadding(scope: string, ws: string, right: string)
    requires NoEq(scope) && AllWhitespace(ws)
    ensures SplitAtEq(scope + ws + "=" + right) == (scope + ws, right)
  {
    var left := scope + ws;
    assert NoEq(left) by {
      assert forall k :: 0 <= k < |ws| ==> left[|scope| + k] == ws[k];
    }
    SplitAtEqOfJoin(left, right);
  }

  /** The variable side of a split, padded on the left with the whitespace
      that stood after the `=`, cleans to the variable when the padded side
      is not itself wrapped in quotes. */
  lemma CleanSideOfLeftPadded(ws: string, env: string)
    requires env != "" && Trimmed(env) && AllWhitespace(ws) && !QuoteWrapped(ws + env)
    ensures CleanSide(ws + env) == env
  {
    TrimPaddedLeft(ws, env);
  }

  /** `parseInclude` on `<scope><ws>=<ws><ENV>`, a token that is already
      trimmed and does not start with a quote: each side is cleaned on its
      own, so whitespace around the `=` is dropped. */
  lemma ParseSpaced(scope: string, ws1: string, ws2: string, env: string, acc: Option<seq<Directive>>)
    requires scope != "" && Trimmed(scope) && NoEq(scope) && !IsQuote(scope[0])
    requires AllWhitespace(ws1) && AllWhitespace(ws2)
    requires env != "" && Trimmed(env) && !QuoteWrapped(ws2 + env)
    ensures var token := scope + ws1 + "=" + ws2 + env;
            ParseInclude(token, acc) == MakeDirective(token, acc, scope, env)
  {
    var left, right := scope + ws1, ws2 + env;
    var token := left + "=" + right;
    assert token == scope + ws1 + "=" + ws2 + env;
    assert token[0] == scope[0] && token[|token| - 1] == env[|env| - 1];
    UnquoteTrimOfPlain(token);
    SplitAfterPadding(scope, ws1, right);
    CleanSideOfPadded(scope, ws1);
    CleanSideOfLeftPadded(ws2, env);
    ParseIncludeOfRaw(token, acc, token, left, right, scope, env);
  }

  /** Whitespace around the `=` is dropped: `@a = TOK` configures `@a`
      with `TOK`. */
  lemma ParseSpacedSides(scope: string, ws1: string, ws2: string, env: string, acc: Option<seq<Directive>>)
    requires ValidScope(scope) && Trimmed(scope) && NoEq(scope)
    requires AllWhitespace(ws1) && AllWhitespace(ws2)
    requires env != "" && Trimmed(env) && !QuoteWrapped(ws2 + env)
    ensures ParseInclude(scope + ws1 + "=" + ws2 + env, acc) == Success(Accumulated(acc) + [Directive(scope, env)])
  {
    ScopeStartIsNotQuote(scope, "");
    assert scope + "" == scope;
    ParseSpaced(scope, ws1, ws2, env, acc);
  }

  /** A scope outside the three targets is an invalid target even when a
      variable follows it: `bogus=TOK` names `bogus`. */
  lemma ParseBadTargetWithEnvRejected(scope: string, ws1: string, ws2: string, env: string, acc: Option<seq<Directive>>)
    requires scope != "" && Trimmed(scope) && NoEq(scope) && !IsQuote(scope[0]) && !ValidScope(scope)
    requires AllWhitespace(ws1) && AllWhitespace(ws2)
    requires env != "" && Trimmed(env) && !QuoteWrapped(ws2 + env)
    ensures ParseInclude(scope + ws1 + "=" + ws2 + env, acc) == Failure(InvalidIncludeTarget(scope))
  {
    ParseSpaced(scope, ws1, ws2, env, acc);
  }

  /** Trailing whitespace after the `=` goes with `trim`. */
  lemma TrimOfOpenEq(scope: string, ws: string, rhs: string)
    requires scope != "" && Trimmed(scope) && AllWhitespace(rhs)
    ensures Trim(scope + ws + "=" + rhs) == scope + ws + "="
  {
    var raw := scope + ws + "=";
    assert raw[0] == scope[0] && raw[|raw| - 1] == '=';
    TrimPaddedRight(raw, rhs);
  }

  /** A scope never starts with a quote, so `<scope><ws>=<ws>` is trimmed
      and unquoted to `<scope><ws>=`. */
  lemma UnquoteTrimOfOpenEq(scope: string, ws: string, rhs: string)
    requires ValidScope(scope) && Trimmed(scope) && AllWhitespace(rhs)
    ensures Unquote(Trim(scope + ws + "=" + rhs)) == scope + ws + "="
  {
    ScopeStartIsNotQuote(scope, ws);
    assert (scope + ws + "=")[0] == (scope + ws)[0];
    UnquoteOfPlainStart(scope + ws + "=");
    TrimOfOpenEq(scope, ws, rhs);
  }

  /** An `=` followed by nothing but whitespace leaves the variable empty,
      so it defaults to `NODE_AUTH_TOKEN`: `@a=` and `@a =  ` both give
      `@a=NODE_AUTH_TOKEN`. */
  lemma ParseEmptyEnvDefaults(scope: string, ws: string, rhs: string, acc: Option<seq<Directive>>)
    requires ValidScope(scope) && Trimmed(scope) && NoEq(scope)
    requires AllWhitespace(ws) && AllWhitespace(rhs)
    ensures ParseInclude(scope + ws + "=" + rhs, acc) == Success(Accumulated(acc) + [Directive(scope, DefaultEnvVar)])
  {
    var raw := scope + ws + "=";
    UnquoteTrimOfOpenEq(scope, ws, rhs);
    SplitAfterPadding(scope, ws, "");
    assert raw + "" == raw;
    ScopeStartIsNotQuote(scope, "");
    assert scope + "" == scope;
    CleanSideOfPadded(scope, ws);
    CleanSideOfEmpty();
    ParseIncludeOfRaw(scope + ws + "=" + rhs, acc, raw, scope + ws, "", scope, "");
  }

  /** A string that does not start with a quote is not unquoted. */
  lemma UnquoteOfPlainStart(s: string)
    requires |s| > 0 && !IsQuote(s[0])
    ensures Unquote(s) == s
  {
  }

  /** A leading `=` leaves the scope side empty. */
  lemma SplitAtEqOfLeadingEq(raw: string)
    requires |raw| > 0 && raw[0] == '='
    ensures SplitAtEq(raw).0 == ""
  {
    assert OccursAt(raw, "=", 0) by {
      assert raw[0..1] == "=";
    }
    assert IndexOf(raw, "=") == 0;
  }

  /** An `=` with nothing before it is an invalid include value, whatever
      follows: `=TOK`. */
  lemma ParseEmptyScopeRejected(rhs: string, acc: Option<seq<Directive>>)
    ensures ParseInclude("=" + rhs, acc) == Failure(InvalidIncludeValue("=" + rhs))
  {
    var token := "=" + rhs;
    TrimKeepsFirst(token);
    var raw := Trim(token);
    UnquoteOfPlainStart(raw);
    SplitAtEqOfLeadingEq(raw);
    var parts := SplitAtEq(raw);
    CleanSideOfEmpty();
    ParseIncludeOfRaw(token, acc, raw, parts.0, parts.1, "", CleanSide(parts.1));
  }

  /** A pair of quotes with nothing between them cleans to nothing. */
  lemma CleanSideOfEmptyQuotes(q1: char, q2: char)
    requires IsQuote(q1) && IsQuote(q2)
    ensures CleanSide([q1, q2]) == ""
  {
    UnquoteStripsPair(q1, "", q2);
    assert [q1] + "" + [q2] == [q1, q2];
    CleanSideOfEmpty();
  }

  /** A token that starts with no whitespace and ends with neither
      whitespace nor a quote is left alone by trimming and unquoting. */
  lemma UnquoteTrimOfUnwrapped(token: string)
    requires token != "" && Trimmed(token) && !IsQuote(token[|token| - 1])
    ensures Unquote(Trim(token)) == token
  {
    TrimOfTrimmed(token);
  }

  /** A pair of quotes as the scope is an empty scope once cleaned, so
      `''=X` is an invalid include value too. */
  lemma ParseQuotedEmptyScopeRejected(q1: char, q2: char, rhs: string, acc: Option<seq<Directive>>)
    requires IsQuote(q1) && IsQuote(q2)
    requires rhs != "" && Trimmed(rhs) && !IsQuote(rhs[|rhs| - 1])
    ensures ParseInclude([q1, q2] + "=" + rhs, acc) == Failure(InvalidIncludeValue([q1, q2] + "=" + rhs))
  {
    var token := [q1, q2] + "=" + rhs;
    assert token[0] == q1 && token[|token| - 1] == rhs[|rhs| - 1];
    UnquoteTrimOfUnwrapped(token);
    assert NoEq([q1, q2]);
    SplitAtEqOfJoin([q1, q2], rhs);
    CleanSideOfEmptyQuotes(q1, q2);
    ParseIncludeOfRaw(token, acc, token, [q1, q2], rhs, "", CleanSide(rhs));
  }

  /** Trimming a padded, quoted text drops the padding and keeps the
      quotes. */
  lemma TrimOfWrapped(text: string, q1: char, q2: char, ws1: string, ws2: string)
    requires IsQuote(q1) && IsQuote(q2) && AllWhitespace(ws1) && AllWhitespace(ws2)
    ensures Trim(ws1 + [q1] + text + [q2] + ws2) == [q1] + text + [q2]
  {
    var quoted := [q1] + text + [q2];
    assert quoted[0] == q1 && quoted[|quoted| - 1] == q2;
    GroupMiddle(ws1, [q1], text, [q2], ws2);
    TrimAround(ws1, quoted, ws2);
  }

  /** Trimming and unquoting a padded, quoted canonical spelling gives the
      spelling back. */
  lemma UnquoteTrimOfWrapped(text: string, q1: char, q2: char, ws1: string, ws2: string)
    requires forall k :: 0 <= k < |text| ==> !IsLineTerminator(text[k])
    requires IsQuote(q1) && IsQuote(q2) && AllWhitespace(ws1) && AllWhitespace(ws2)
    ensures Unquote(Trim(ws1 + [q1] + text + [q2] + ws2)) == text
  {
    TrimOfWrapped(text, q1, q2, ws1, ws2);
    UnquoteStripsPair(q1, text, q2);
  }

  /** Quotes and whitespace around the whole token go: the canonical
      spelling of a directive, quoted with any two quotes and padded with
      whitespace, parses back to that directive. */
  lemma ParseWrappedRender(d: Directive, q1: char, q2: char, ws1: string, ws2: string, acc: Option<seq<Directive>>)
    requires WellFormed(d) && NoEq(d.scope) && !QuoteWrapped(d.envVar)
    requires forall k :: 0 <= k < |Render(d)| ==> !IsLineTerminator(Render(d)[k])
    requires IsQuote(q1) && IsQuote(q2) && AllWhitespace(ws1) && AllWhitespace(ws2)
    ensures ParseInclude(ws1 + [q1] + Render(d) + [q2] + ws2, acc) == Success(Accumulated(acc) + [d])
  {
    UnquoteTrimOfWrapped(Render(d), q1, q2, ws1, ws2);
    ParseOfUnquotedJoin(ws1 + [q1] + Render(d) + [q2] + ws2, d.scope, d.envVar, acc);
  }

  /** Any token that trims and unquotes to `<scope>=<ENV>`, for a scope and
      a variable that cleaning leaves alone, parses to that directive. */
  lemma ParseOfUnquotedJoin(token: string, scope: string, env: string, acc: Option<seq<Directive>>)
    requires ValidScope(scope) && Trimmed(scope) && NoEq(scope)
    requires env != "" && Trimmed(env) && !QuoteWrapped(env)
    requires Unquote(Trim(token)) == scope + "=" + env
    ensures ParseInclude(token, acc) == Success(Accumulated(acc) + [Directive(scope, env)])
  {
    SplitAtEqOfJoin(scope, env);
    CleanSideOfScope(scope);
    CleanSideOfPlain(env);
    ParseIncludeOfRaw(token, acc, scope + "=" + env, scope, env, scope, env);
  }

  /** A quote after the whitespace that follows the `=` is kept: each side
      is unquoted before it is trimmed, so `@a= 'T'` names the variable
      `'T'`, quotes included. */
  lemma ParseSpaceBeforeQuoteKeepsQuotes(scope: string, ws1: string, ws2: string, q1: char, text: string, q2: char,
                                         acc: Option<seq<Directive>>)
    requires ValidScope(scope) && Trimmed(scope) && NoEq(scope)
    requires AllWhitespace(ws1) && ws2 != "" && AllWhitespace(ws2)
    requires IsQuote(q1) && IsQuote(q2)
    ensures var env := [q1] + text + [q2];
            ParseInclude(scope + ws1 + "=" + ws2 + env, acc) == Success(Accumulated(acc) + [Directive(scope, env)])
  {
    var env := [q1] + text + [q2];
    assert env[0] == q1 && env[|env| - 1] == q2;
    assert (ws2 + env)[0] == ws2[0];
    ParseSpacedSides(scope, ws1, ws2, env, acc);
  }

  /** A quoted side loses its quotes first and then the whitespace inside
      them: `" TOK "` cleans to `TOK`. */
  lemma CleanSideOfQuoted(q1: char, ws1: string, x: string, ws2: string, q2: char)
    requires IsQuote(q1) && IsQuote(q2) && AllWhitespace(ws1) && AllWhitespace(ws2)
    requires x != "" && Trimmed(x)
    requires forall k :: 0 <= k < |ws1 + x + ws2| ==> !IsLineTerminator((ws1 + x + ws2)[k])
    ensures CleanSide([q1] + ws1 + x + ws2 + [q2]) == x
  {
    UnquoteStripsPair(q1, ws1 + x + ws2, q2);
    assert [q1] + (ws1 + x + ws2) + [q2] == [q1] + ws1 + x + ws2 + [q2];
    TrimAround(ws1, x, ws2);
  }

  /** A token that trims and unquotes to `<left>=<right>` parses to the
      directive of the cleaned sides, once the scope side is accepted and
      the variable side is not empty. */
  lemma ParseOfCleanSides(token: string, left: string, right: string, scope: string, env: string,
                          acc: Option<seq<Directive>>)
    requires NoEq(left) && Unquote(Trim(token)) == left + "=" + right
    requires CleanSide(left) == scope && CleanSide(right) == env
    requires ValidScope(scope) && env != ""
    ensures ParseInclude(token, acc) == Success(Accumulated(acc) + [Directive(scope, env)])
  {
    SplitAtEqOfJoin(left, right);
    ParseIncludeOfRaw(token, acc, left + "=" + right, left, right, scope, env);
  }

  /** A quoted variable side is unquoted, then trimmed: `@a='TOK'` and
      `@a=" TOK "` both name the variable `TOK`. */
  lemma ParseQuotedEnvSide(scope: string, q1: char, ws1: string, env: string, ws2: string, q2: char,
                           acc: Option<seq<Directive>>)
    requires ValidScope(scope) && Trimmed(scope) && NoEq(scope)
    requires IsQuote(q1) && IsQuote(q2) && AllWhitespace(ws1) && AllWhitespace(ws2)
    requires env != "" && Trimmed(env)
    requires forall k :: 0 <= k < |ws1 + env + ws2| ==> !IsLineTerminator((ws1 + env + ws2)[k])
    ensures ParseInclude(scope + "=" + ([q1] + ws1 + env + ws2 + [q2]), acc)
            == Success(Accumulated(acc) + [Directive(scope, env)])
  {
    var side := [q1] + ws1 + env + ws2 + [q2];
    var token := scope + "=" + side;
    ScopeStartIsNotQuote(scope, "=" + side);
    assert scope + ("=" + side) == token;
    assert token[|token| - 1] == q2;
    UnquoteTrimOfPlain(token);
    CleanSideOfScope(scope);
    CleanSideOfQuoted(q1, ws1, env, ws2, q2);
    ParseOfCleanSides(token, scope, side, scope, env, acc);
  }

  /** Quotes and whitespace add no `=`. */
  lemma NoEqOfQuoted(q1: char, ws1: string, x: string, ws2: string, q2: char)
    requires IsQuote(q1) && IsQuote(q2) && AllWhitespace(ws1) && AllWhitespace(ws2) && NoEq(x)
    ensures NoEq([q1] + ws1 + x + ws2 + [q2])
  {
    var side := [q1] + ws1 + x + ws2 + [q2];
    forall k | 0 <= k < |side| ensures side[k] != '=' {
      if 1 <= k <= |ws1| {
        assert side[k] == ws1[k - 1];
      } else if |ws1| < k <= |ws1| + |x| {
        assert side[k] == x[k - 1 - |ws1|];
      } else if |ws1| + |x| < k < |side| - 1 {
        assert side[k] == ws2[k - 1 - |ws1| - |x|];
      }
    }
  }

  /** A quoted scope side is unquoted, then trimmed: `"@a"=TOK` and
      `" @a "=TOK` both configure the scope `@a`. */
  lemma ParseQuotedScopeSide(q1: char, ws1: string, scope: string, ws2: string, q2: char, env: string,
                             acc: Option<seq<Directive>>)
    requires ValidScope(scope) && Trimmed(scope) && NoEq(scope)
    requires IsQuote(q1) && IsQuote(q2) && AllWhitespace(ws1) && AllWhitespace(ws2)
    requires forall k :: 0 <= k < |ws1 + scope + ws2| ==> !IsLineTerminator((ws1 + scope + ws2)[k])
    requires env != "" && Trimmed(env) && !IsQuote(env[|env| - 1])
    ensures ParseInclude(([q1] + ws1 + scope + ws2 + [q2]) + "=" + env, acc)
            == Success(Accumulated(acc) + [Directive(scope, env)])
  {
    var side := [q1] + ws1 + scope + ws2 + [q2];
    var token := side + "=" + env;
    assert token[0] == q1 && token[|token| - 1] == env[|env| - 1];
    UnquoteTrimOfUnwrapped(token);
    NoEqOfQuoted(q1, ws1, scope, ws2, q2);
    CleanSideOfQuoted(q1, ws1, scope, ws2, q2);
    assert !QuoteWrapped(env);
    CleanSideOfPlain(env);
    ParseOfCleanSides(token, side, env, scope, env, acc);
  }

}
