/**
 What a format with every percent sign doubled is for: its output is the text.
 */
module EscapedText {
  import opened PrintfSyntax
  import opened DirectiveBuffer
  import opened Formatter

  function Escaped(s: string): (e: string)
    ensures |s| <= |e| <= 2 * |s|
    decreases |s|
  {
    if s == "" then "" else (if s[0] == '%' then "%%" else [s[0]]) + Escaped(s[1..])
  }

  /** Memory for a directive table of this length can be computed. */
  const LIMIT: nat := 0x80_0000_0000_0000

  /** Parsed so far: only percent directives, whose output with the text before i is `done`. */
  ghost predicate Through<V>(fmt: string, i: nat, st: State, values: seq<V>, render: (string, seq<V>) -> string,
          done: string) {
    && st.args == [] && |st.dirs| < st.d_allocated <= 2 * |st.dirs| + 1
    && TextStart(st.dirs, |st.dirs|) <= i <= |fmt|
    && Expanded(fmt, st, i, values, render) == done
  }

  lemma {:induction false} FormattedOfPrefix<V>(fmt: string, dirs: seq<Directive>, d: Directive, args: seq<ArgType>,
          values: seq<V>, render: (string, seq<V>) -> string, k: nat)
    requires k <= |dirs|
    ensures Formatted(fmt, dirs + [d], args, values, render, k) == Formatted(fmt, dirs, args, values, render, k)
    decreases k
  {
    hide Slice, Converted;
    if k > 0 {
      FormattedOfPrefix(fmt, dirs, d, args, values, render, k - 1);
    }
  }

  /** The directive that a doubled percent sign is. */
  function Percent(i: nat): Directive {
    Directive(i, i + 2, {}, NULL, NULL, ARG_NONE, NULL, NULL, ARG_NONE, '%', ARG_NONE)
  }

  lemma PercentIsParsed(fmt: string, i: nat, st: State)
    requires i + 1 < |fmt| && fmt[i] == '%' && fmt[i + 1] == '%'
    requires |st.dirs| < st.d_allocated <= 2 * |st.dirs| + 1 && |st.dirs| < LIMIT
    ensures ParseDirective(fmt, i, st).Some? && ParseDirective(fmt, i, st).value.0 == i + 2
    ensures var st' := ParseDirective(fmt, i, st).value.1;
      st' == st.(dirs := st.dirs + [Percent(i)], d_allocated := st'.d_allocated)
      && |st'.dirs| < st'.d_allocated <= 2 * |st'.dirs| + 1
  {
    assert ScanRef(fmt, i + 1) == NoRef;
    assert ScanFlags(fmt, i + 1, {}) == ({}, i + 1);
    assert ScanSizes(fmt, i + 1, 0) == (0, i + 1);
  }

  lemma TextStretches(fmt: string, a: nat, i: nat)
    requires a <= i < |fmt|
    ensures Slice(fmt, a, i + 1) == Slice(fmt, a, i) + [fmt[i]]
  {
  }

  lemma ThroughText<V>(fmt: string, i: nat, st: State, values: seq<V>, render: (string, seq<V>) -> string, done: string)
    requires Through(fmt, i, st, values, render, done) && i < |fmt|
    ensures Through(fmt, i + 1, st, values, render, done + [fmt[i]])
  {
    hide Formatted, Slice;
    TextStretches(fmt, TextStart(st.dirs, |st.dirs|), i);
  }

  lemma NoText(fmt: string, i: nat)
    requires i <= |fmt|
    ensures Slice(fmt, i, i) == ""
  {
  }

  lemma ThroughPercent<V>(fmt: string, i: nat, st: State, st': State, values: seq<V>,
          render: (string, seq<V>) -> string, done: string)
    requires Through(fmt, i, st, values, render, done) && i + 2 <= |fmt|
    requires st' == st.(dirs := st.dirs + [Percent(i)], d_allocated := st'.d_allocated)
    requires |st'.dirs| < st'.d_allocated <= 2 * |st'.dirs| + 1
    ensures Through(fmt, i + 2, st', values, render, done + "%")
  {
    hide Slice, Formatted;
    var n := |st.dirs|;
    FormattedStep(fmt, st'.dirs, st.args, values, render, n);
    FormattedOfPrefix(fmt, st.dirs, Percent(i), st.args, values, render, n);
    NoText(fmt, i + 2);
    assert TextStart(st'.dirs, n) == TextStart(st.dirs, n);
    assert Converted(fmt, Percent(i), st.args, values, render) == "%";
  }

  /** The format is parsed to its end, and nothing is added or lost on the way. */
  lemma {:induction false} EscapedFrom<V>(fmt: string, i: nat, rest: string, st: State, values: seq<V>,
          render: (string, seq<V>) -> string, done: string)
    requires i <= |fmt| && fmt[i..] == Escaped(rest) && '\0' !in rest && |st.dirs| + |rest| < LIMIT
    requires Through(fmt, i, st, values, render, done)
    ensures Parse(fmt, i, st).Some? && Parse(fmt, i, st).value.0 == |fmt|
    ensures Through(fmt, |fmt|, Parse(fmt, i, st).value.1, values, render, done + rest)
    decreases |rest|
  {
    hide Through, ParseDirective;
    if rest == "" {
      assert done + rest == done;
    } else {
      var c, more := rest[0], rest[1..];
      assert rest == [c] + more && c in rest && forall x :: x in more ==> x in rest;
      assert fmt[i] == fmt[i..][0] == c;
      if c == '%' {
        assert fmt[i + 1] == fmt[i..][1] == '%';
        assert fmt[i + 2..] == fmt[i..][2..] == Escaped(more);
        ThroughCounts(fmt, i, st, values, render, done);
        PercentIsParsed(fmt, i, st);
        var st' := ParseDirective(fmt, i, st).value.1;
        ThroughPercent(fmt, i, st, st', values, render, done);
        EscapedFrom(fmt, i + 2, more, st', values, render, done + "%");
        assert done + "%" + more == done + rest;
      } else {
        assert fmt[i + 1..] == fmt[i..][1..] == Escaped(more);
        ThroughText(fmt, i, st, values, render, done);
        EscapedFrom(fmt, i + 1, more, st, values, render, done + [c]);
        assert done + [c] + more == done + rest;
      }
    }
  }

  lemma ThroughCounts<V>(fmt: string, i: nat, st: State, values: seq<V>, render: (string, seq<V>) -> string,
          done: string)
    requires Through(fmt, i, st, values, render, done)
    ensures |st.dirs| < st.d_allocated <= 2 * |st.dirs| + 1
  {
  }

  /** Escaped text is accepted without arguments, and its output is the text. */
  lemma EscapedTextIsItself<V>(s: string, values: seq<V>, render: (string, seq<V>) -> string)
    requires '\0' !in s && |s| < LIMIT
    ensures Accepted(Escaped(s)) && Parse(Escaped(s), 0, INITIAL).value.1.args == []
    ensures var (end, st) := Parse(Escaped(s), 0, INITIAL).value; Expanded(Escaped(s), st, end, values, render) == s
  {
    hide Parse, Formatted, Escaped;
    var fmt := Escaped(s);
    assert fmt[0..] == fmt;
    Nothing(fmt, values, render);
    EscapedFrom(fmt, 0, s, INITIAL, values, render, "");
    assert "" + s == s;
  }

  lemma Nothing<V>(fmt: string, values: seq<V>, render: (string, seq<V>) -> string)
    ensures Through(fmt, 0, INITIAL, values, render, "")
  {
  }
}
