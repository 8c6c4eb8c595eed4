/** The Jac formatter's text engine: each node's `gen.jac` text is built
    bottom-up by emitting strings into it under a current indentation
    level; lists of child texts are joined; boolean expressions are broken
    over lines when too long; multi-line strings are split into lines; a
    module lays out its items with blank lines between them. */
module JacFormat {
  import opened Common

  type NodeId = nat

  const IndentSize := 4

  /** Python's `str.isspace` on one character. */
  predicate IsSpace(c: char) {
    c == ' ' || ('\t' <= c <= '\r') || ('\U{1c}' <= c <= '\U{1f}') || c == '\U{85}' || c == '\U{a0}'
    || c == '\U{1680}' || ('\U{2000}' <= c <= '\U{200a}') || c == '\U{2028}' || c == '\U{2029}'
    || c == '\U{202f}' || c == '\U{205f}' || c == '\U{3000}'
  }

  predicate AllSpaces(s: string) {
    forall k :: 0 <= k < |s| ==> s[k] == ' '
  }

  /** `indent_str`: four spaces per level; a level below one gives no
      indentation at all. */
  function IndentStr(level: int): (r: string)
    ensures |r| == (if level > 0 then IndentSize * level else 0)
  {
    if level > 0 then Repeat(' ', IndentSize * level) else ""
  }

  /** The indentation is made of spaces only. */
  lemma IndentSpaces(level: int)
    ensures AllSpaces(IndentStr(level))
  {
  }

  /** `re.sub(r"\n(?!\n)", "\n" + ind, s)`: every newline not followed by
      another newline (including one at the very end) gets `ind` after it. */
  function Reindent(s: string, ind: string): string
    decreases |s|
  {
    if s == [] then []
    else if s[0] == '\n' && (|s| == 1 || s[1] != '\n') then "\n" + ind + Reindent(s[1..], ind)
    else [s[0]] + Reindent(s[1..], ind)
  }

  /** Newlines that a newline does not follow, i.e. where `Reindent` inserts. */
  function LoneNewlines(s: string): nat
    decreases |s|
  {
    if s == [] then 0
    else (if s[0] == '\n' && (|s| == 1 || s[1] != '\n') then 1 else 0) + LoneNewlines(s[1..])
  }

  /** Re-indenting inserts `ind` once per lone newline and nothing else. */
  lemma {:induction false} ReindentLength(s: string, ind: string)
    ensures |Reindent(s, ind)| == |s| + |ind| * LoneNewlines(s)
    decreases |s|
  {
    if s != [] {
      ReindentLength(s[1..], ind);
    }
  }

  /** With an empty indentation, or a string without newlines, re-indenting
      changes nothing. */
  lemma {:induction false} ReindentIdentity(s: string, ind: string)
    requires ind == "" || !HasNewline(s)
    ensures Reindent(s, ind) == s
    decreases |s|
  {
    if s != [] {
      ReindentIdentity(s[1..], ind);
      assert s == [s[0]] + s[1..];
    }
  }

  /** `s.rstrip(" ")`. */
  function RStripSpaces(s: string): (r: string)
    ensures |r| <= |s|
    ensures r == [] || r[|r| - 1] != ' '
    decreases |s|
  {
    if s != [] && s[|s| - 1] == ' ' then RStripSpaces(s[..|s| - 1]) else s
  }

  /** `rstrip(" ")` keeps a prefix and removes only spaces. */
  lemma {:induction false} RStripSpacesRemoves(s: string)
    ensures var r := RStripSpaces(s); r == s[..|r|] && AllSpaces(s[|r|..])
    decreases |s|
  {
    if s != [] && s[|s| - 1] == ' ' {
      var s1 := s[..|s| - 1];
      RStripSpacesRemoves(s1);
      var r := RStripSpaces(s1);
      assert s[..|r|] == s1[..|r|];
      assert s[|r|..] == s1[|r|..] + [' '];
    }
  }

  /** A text that does not end in a space is its own `rstrip(" ")`. */
  lemma RStripSpacesKeeps(t: string)
    requires t != [] && t[|t| - 1] != ' '
    ensures RStripSpaces(t) == t
  {
  }

  /** Trailing spaces make no difference to `rstrip(" ")`. */
  lemma {:induction false} RStripSpacesAppend(a: string, b: string)
    requires AllSpaces(b)
    ensures RStripSpaces(a + b) == RStripSpaces(a)
    decreases |b|
  {
    if b != [] {
      var ab := a + b;
      var b1 := b[..|b| - 1];
      assert ab[|ab| - 1] == b[|b| - 1] == ' ';
      assert ab[..|ab| - 1] == a + b1;
      assert RStripSpaces(ab) == RStripSpaces(a + b1);
      assert AllSpaces(b1) by {
        forall k | 0 <= k < |b1| ensures b1[k] == ' ' {
          assert b1[k] == b[k];
        }
      }
      RStripSpacesAppend(a, b1);
    } else {
      assert a + b == a;
    }
  }

  /** `s.rstrip()` over Python whitespace. */
  function RStrip(s: string): (r: string)
    ensures |r| <= |s| && (r == [] || !IsSpace(r[|r| - 1]))
    decreases |s|
  {
    if s != [] && IsSpace(s[|s| - 1]) then RStrip(s[..|s| - 1]) else s
  }

  /** `s.lstrip()` over Python whitespace. */
  function LStrip(s: string): (r: string)
    ensures |r| <= |s| && (r == [] || !IsSpace(r[0]))
    decreases |s|
  {
    if s != [] && IsSpace(s[0]) then LStrip(s[1..]) else s
  }

  /** `s.strip()`: no whitespace left at either end, and what was removed
      was whitespace. */
  function Strip(s: string): (r: string)
    ensures |r| <= |s|
  {
    LStrip(RStrip(s))
  }

  /** What `strip()` keeps has no whitespace at either end. */
  lemma StripEnds(s: string)
    ensures var r := Strip(s); r == [] || (!IsSpace(r[0]) && !IsSpace(r[|r| - 1]))
  {
    var t := RStrip(s);
    LStripKeepsEnd(t);
  }

  /** `lstrip()` of a string whose last character is not whitespace keeps
      that last character (or is empty). */
  lemma {:induction false} LStripKeepsEnd(t: string)
    requires t == [] || !IsSpace(t[|t| - 1])
    ensures var r := LStrip(t); r == [] || (!IsSpace(r[0]) && r[|r| - 1] == t[|t| - 1])
    decreases |t|
  {
    if t != [] && IsSpace(t[0]) {
      LStripKeepsEnd(t[1..]);
    }
  }

  /** A string with no whitespace at either end is its own strip. */
  lemma StripClean(s: string)
    requires s != [] && !IsSpace(s[0]) && !IsSpace(s[|s| - 1])
    ensures Strip(s) == s
  {
  }

  /** Stripping twice is stripping once. */
  lemma StripIdempotent(s: string)
    ensures Strip(Strip(s)) == Strip(s)
  {
    StripEnds(s);
    if Strip(s) != [] {
      StripClean(Strip(s));
    }
  }

  /** `"\n" in s`. */
  predicate HasNewline(s: string)
    decreases |s|
  {
    s != [] && (s[0] == '\n' || HasNewline(s[1..]))
  }

  lemma {:induction false} HasNewlineIn(s: string)
    ensures HasNewline(s) <==> '\n' in s
    decreases |s|
  {
    if s != [] {
      HasNewlineIn(s[1..]);
      assert s == [s[0]] + s[1..];
    }
  }

  lemma {:induction false} HasNewlineAppend(a: string, b: string)
    ensures HasNewline(a + b) <==> HasNewline(a) || HasNewline(b)
    decreases |a|
  {
    if a != [] {
      assert (a + b)[1..] == a[1..] + b;
      HasNewlineAppend(a[1..], b);
    } else {
      assert a + b == b;
    }
  }

  /** `s.endswith("\n")`. */
  predicate EndsLine(s: string) {
    s != [] && s[|s| - 1] == '\n'
  }

  /** `emit`: re-indent `s`, put the indentation in front and append to
      the node's text; in strip mode, trailing spaces are then dropped once
      the text holds a newline. */
  function EmitText(text: string, level: int, s: string, stripMode: bool): string
    decreases stripMode
  {
    if stripMode then StripTail(EmitText(text, level, s, false))
    else text + IndentStr(level) + Reindent(s, IndentStr(level))
  }

  /** `rstrip(" ")` once the text holds a newline. */
  function StripTail(t: string): string {
    if HasNewline(t) then RStripSpaces(t) else t
  }

  /** `emit_ln`: the text of emitting `s` stripped (which also removes
      newlines at its ends), then the indentation and a newline; this is
      what emitting the stripped piece and then a newline gives (see
      `EmitLnIsTwoEmits`). */
  function EmitLnText(text: string, level: int, s: string): string {
    EmitText(text, level, Strip(s), true) + IndentStr(level) + "\n"
  }

  /** Emitting a newline appends the indentation and the newline: the
      indentation put after the newline is stripped again, the one put
      before it is not. */
  lemma EmitNewline(t: string, level: int)
    ensures EmitText(t, level, "\n", true) == t + IndentStr(level) + "\n"
  {
    var ind := IndentStr(level);
    var u := t + ind + "\n";
    assert "\n"[1..] == [];
    assert Reindent("\n", ind) == "\n" + ind;
    assert t + ind + Reindent("\n", ind) == u + ind;
    HasNewlineAppend(t + ind, "\n");
    HasNewlineAppend(u, ind);
    IndentSpaces(level);
    RStripSpacesAppend(u, ind);
    RStripSpacesKeeps(u);
  }

  /** `emit_ln` is `emit` of the stripped piece followed by `emit` of a
      newline. */
  lemma EmitLnIsTwoEmits(text: string, level: int, s: string)
    ensures EmitLnText(text, level, s) == EmitText(EmitText(text, level, Strip(s), true), level, "\n", true)
  {
    EmitNewline(EmitText(text, level, Strip(s), true), level);
  }

  /** At the outermost level a piece without newlines is not re-indented. */
  lemma EmitPieces(text: string, level: int, s: string)
    requires level <= 0 && !HasNewline(s)
    ensures text + IndentStr(level) + Reindent(s, IndentStr(level)) == text + s
  {
    ReindentIdentity(s, "");
  }

  /** A piece with no newline that does not end in a space, emitted at the
      outermost level, is appended verbatim. */
  lemma EmitVerbatim(text: string, level: int, s: string)
    requires level <= 0 && !HasNewline(s) && s != [] && s[|s| - 1] != ' '
    ensures EmitText(text, level, s, true) == text + s
  {
    EmitPieces(text, level, s);
    RStripSpacesKeeps(text + s);
  }

  /** Outside strip mode, a piece with no newline emitted at the outermost
      level is appended verbatim, trailing spaces included. */
  lemma EmitNoStrip(text: string, level: int, s: string)
    requires level <= 0 && !HasNewline(s)
    ensures EmitText(text, level, s, false) == text + s
  {
    EmitPieces(text, level, s);
  }

  /** Emitting nothing at the outermost level leaves a text that does not
      end in a space as it is. */
  lemma EmitNothing(text: string, level: int)
    requires level <= 0 && (text == [] || text[|text| - 1] != ' ')
    ensures EmitText(text, level, "", true) == text
  {
    EmitPieces(text, level, "");
    assert text + "" == text;
    if text != [] {
      RStripSpacesKeeps(text);
    }
  }

  /** A non-empty piece with no newline and no whitespace at its ends. */
  predicate Clean(s: string) {
    s != [] && !HasNewline(s) && !IsSpace(s[0]) && !IsSpace(s[|s| - 1])
  }

  /** A clean piece, emitted as a line at the outermost level, is appended
      followed by a newline. */
  lemma EmitLnVerbatim(text: string, level: int, s: string)
    requires level <= 0 && Clean(s)
    ensures EmitLnText(text, level, s) == text + s + "\n"
  {
    StripClean(s);
    EmitVerbatim(text, level, s);
  }

  /** A blank line (an `emit_ln` of nothing) at the outermost level, on a
      text that does not end in a space, is exactly a newline appended. */
  lemma BlankLine(text: string, level: int)
    requires level <= 0 && (text == [] || text[|text| - 1] != ' ')
    ensures EmitLnText(text, level, "") == text + "\n"
  {
    assert Strip("") == "";
    EmitNothing(text, level);
  }

  /** Each text followed by a newline (`nl_sep_node_list`). */
  function NlJoined(items: seq<string>): string
  {
    if items == [] then "" else items[0] + "\n" + NlJoined(items[1..])
  }

  /** Putting a newline after each item is joining them with newlines and
      adding one more newline. */
  lemma NlJoinedJoin(items: seq<string>)
    requires items != []
    ensures NlJoined(items) == Join(items, "\n") + "\n"
  {
    var n := |items|;
    assert items[..n - 1] + [items[n - 1]] == items;
    NlJoinedIsJoin(items[..n - 1], items[n - 1]);
    NlJoinedSnoc(items[..n - 1], items[n - 1]);
  }

  lemma {:induction false} NlJoinedIsJoin(items: seq<string>, last: string)
    ensures NlJoined(items) + last == Join(items + [last], "\n")
    decreases |items|
  {
    if items != [] {
      NlJoinedIsJoin(items[1..], last);
      assert (items + [last])[1..] == items[1..] + [last];
    }
  }

  lemma {:induction false} NlJoinedSnoc(xs: seq<string>, x: string)
    ensures NlJoined(xs + [x]) == NlJoined(xs) + x + "\n"
    decreases |xs|
  {
    if xs != [] {
      assert (xs + [x])[1..] == xs[1..] + [x];
      NlJoinedSnoc(xs[1..], x);
    }
  }

  /** Dot-separated texts without dots split back into the same texts. */
  lemma DotSepSplit(items: seq<string>)
    requires |items| >= 1 && forall i :: 0 <= i < |items| ==> '.' !in items[i]
    ensures Split(Join(items, "."), '.') == items
  {
    SplitJoin(items, '.');
  }

  /** A join of pieces and a separator without newlines has none. */
  lemma {:induction false} JoinNoNewline(parts: seq<string>, sep: string)
    requires !HasNewline(sep) && forall i :: 0 <= i < |parts| ==> !HasNewline(parts[i])
    ensures !HasNewline(Join(parts, sep))
    decreases |parts|
  {
    if |parts| > 1 {
      JoinNoNewline(parts[1..], sep);
      HasNewlineAppend(parts[0], sep);
      HasNewlineAppend(parts[0] + sep, Join(parts[1..], sep));
    }
  }

  /** A join ends with the last character of its last piece. */
  lemma {:induction false} JoinEnds(parts: seq<string>, sep: string)
    requires |parts| >= 1 && parts[|parts| - 1] != []
    ensures Join(parts, sep) != [] && Join(parts, sep)[|Join(parts, sep)| - 1] == parts[|parts| - 1][|parts[|parts| - 1]| - 1]
    decreases |parts|
  {
    if |parts| > 1 {
      assert parts[1..][|parts| - 2] == parts[|parts| - 1];
      JoinEnds(parts[1..], sep);
    }
  }

  const NotModuleIce := "IR must be module. Impossible"

  /** `token_before`: the terminal just before `node`, none for the first;
      an error when the tree is not a module or `node` is no terminal. */
  function TokenBefore(isModule: bool, terminals: seq<NodeId>, node: NodeId): (r: Result<Option<NodeId>>)
    ensures r.Err? <==> !isModule || node !in terminals
    ensures r.Ok? ==> (r.value.None? <==> IndexOf(terminals, node) == 0)
    ensures r.Ok? && r.value.Some? ==> r.value.value == terminals[IndexOf(terminals, node) - 1]
  {
    if !isModule then Err(NotModuleIce)
    else if node !in terminals then Err("not in list")
    else if IndexOf(terminals, node) == 0 then Ok(None)
    else Ok(Some(terminals[IndexOf(terminals, node) - 1]))
  }

  /** `token_after`: the terminal just after `node`, none for the last. */
  function TokenAfter(isModule: bool, terminals: seq<NodeId>, node: NodeId): (r: Result<Option<NodeId>>)
    ensures r.Err? <==> !isModule || node !in terminals
    ensures r.Ok? ==> (r.value.None? <==> IndexOf(terminals, node) == |terminals| - 1)
    ensures r.Ok? && r.value.Some? ==> r.value.value == terminals[IndexOf(terminals, node) + 1]
  {
    if !isModule then Err(NotModuleIce)
    else if node !in terminals then Err("not in list")
    else if IndexOf(terminals, node) == |terminals| - 1 then Ok(None)
    else Ok(Some(terminals[IndexOf(terminals, node) + 1]))
  }

  /** Among distinct terminals, the token after the token before `n` is
      `n` again. */
  lemma TokenBeforeAfter(terminals: seq<NodeId>, n: NodeId)
    requires NoDup(terminals)
    requires TokenBefore(true, terminals, n).Ok? && TokenBefore(true, terminals, n).value.Some?
    ensures TokenAfter(true, terminals, TokenBefore(true, terminals, n).value.value) == Ok(Some(n))
  {
    var i := IndexOf(terminals, n);
    var b := terminals[i - 1];
    var j := IndexOf(terminals, b);
    assert j == i - 1;
  }

  /** `is_line_break_needed`: strictly longer than the limit, where a limit
      of 0 stands for the formatter's maximum line length. */
  function IsLineBreakNeeded(content: string, limit: int, maxLineLength: int): (r: bool)
    ensures r <==> |content| > (if limit == 0 then maxLineLength else limit)
  {
    var max := if limit == 0 then maxLineLength else limit;
    |content| > max
  }

  /** The indentation put before the operator of a broken boolean
      expression is four spaces. */
  lemma FourSpaces()
    ensures Repeat(' ', IndentSize) == "    "
  {
  }

  /** A boolean expression over line-broken operands: every operand but
      the last as its own line followed by the indented operator (emitted
      outside strip mode), then the last operand. */
  function BoolBroken(text: string, level: int, vs: seq<string>, op: string): string
    requires vs != []
    decreases |vs|
  {
    if |vs| == 1 then EmitText(text, level, vs[0], true)
    else
      var t := EmitText(EmitLnText(text, level, vs[0]), level, Repeat(' ', IndentSize) + op + " ", false);
      BoolBroken(t, level, vs[1..], op)
  }

  lemma BoolBrokenStep(t: string, level: int, vs: seq<string>, op: string)
    requires |vs| >= 2
    ensures BoolBroken(t, level, vs, op)
            == BoolBroken(EmitText(EmitLnText(t, level, vs[0]), level, Repeat(' ', IndentSize) + op + " ", false), level, vs[1..], op)
  {
  }

  /** `exit_bool_expr` on a non-empty operand list: the one-line form when
      it fits, the broken form otherwise. */
  function BoolExprText(text: string, level: int, vs: seq<string>, op: string, maxLineLength: int): string
    requires vs != []
  {
    var line := Join(vs, " " + op + " ");
    if IsLineBreakNeeded(line, 0, maxLineLength) then BoolBroken(text, level, vs, op)
    else EmitText(text, level, line, true)
  }

  /** At the outermost level one broken operand is the operand, a line
      break, four spaces, the operator and a space. */
  lemma BoolBrokenHead(text: string, level: int, v: string, op: string)
    requires level <= 0 && Clean(v) && !HasNewline(op)
    ensures EmitText(EmitLnText(text, level, v), level, Repeat(' ', IndentSize) + op + " ", false)
            == text + v + ("\n    " + op + " ")
  {
    FourSpaces();
    HasNewlineAppend("    ", op);
    HasNewlineAppend("    " + op, " ");
    EmitLnVerbatim(text, level, v);
    EmitNoStrip(text + v + "\n", level, "    " + op + " ");
  }

  /** At the outermost level, with clean operands, a broken boolean
      expression is the operands joined by a newline, four spaces, the
      operator and a space. */
  lemma {:induction false} BoolBrokenLayout(text: string, level: int, vs: seq<string>, op: string)
    requires level <= 0 && vs != [] && !HasNewline(op)
    requires forall i :: 0 <= i < |vs| ==> Clean(vs[i])
    ensures BoolBroken(text, level, vs, op) == text + Join(vs, "\n    " + op + " ")
    decreases |vs|
  {
    if |vs| == 1 {
      EmitVerbatim(text, level, vs[0]);
      assert Join(vs, "\n    " + op + " ") == vs[0];
    } else {
      var sep := "\n    " + op + " ";
      var h := EmitText(EmitLnText(text, level, vs[0]), level, Repeat(' ', IndentSize) + op + " ", false);
      BoolBrokenStep(text, level, vs, op);
      BoolBrokenHead(text, level, vs[0], op);
      assert h == text + vs[0] + sep;
      var tl := vs[1..];
      assert forall i :: 0 <= i < |tl| ==> Clean(tl[i]) by {
        forall i | 0 <= i < |tl| ensures Clean(tl[i]) {
          assert tl[i] == vs[i + 1];
        }
      }
      BoolBrokenLayout(h, level, tl, op);
      var rest := Join(tl, sep);
      assert Join(vs, sep) == vs[0] + sep + rest;
      AppendAssoc(text, vs[0], sep);
      AppendAssoc(text, vs[0] + sep, rest);
      calc {
        BoolBroken(text, level, vs, op);
        BoolBroken(h, level, tl, op);
        h + rest;
        text + (vs[0] + sep) + rest;
        text + (vs[0] + sep + rest);
      }
    }
  }

  /** At the outermost level, with clean operands, a boolean expression is
      its operands joined by ` op ` when that fits in the line limit, and
      joined by a line break, the indented operator and a space otherwise. */
  lemma BoolExprLayout(text: string, level: int, vs: seq<string>, op: string, maxLineLength: int)
    requires level <= 0 && vs != [] && !HasNewline(op)
    requires forall i :: 0 <= i < |vs| ==> Clean(vs[i])
    ensures var line := Join(vs, " " + op + " ");
            BoolExprText(text, level, vs, op, maxLineLength)
            == text + (if |line| > maxLineLength then Join(vs, "\n    " + op + " ") else line)
  {
    var line := Join(vs, " " + op + " ");
    if |line| > maxLineLength {
      BoolBrokenLayout(text, level, vs, op);
    } else {
      HasNewlineAppend(" ", op);
      HasNewlineAppend(" " + op, " ");
      JoinNoNewline(vs, " " + op + " ");
      JoinEnds(vs, " " + op + " ");
      EmitVerbatim(text, level, line);
    }
  }

  /** `emit_ln` of each string in turn. */
  function EmitLnAll(text: string, level: int, xs: seq<string>): string
    decreases |xs|
  {
    if xs == [] then text else EmitLnAll(EmitLnText(text, level, xs[0]), level, xs[1..])
  }

  /** At the outermost level, emitting clean lines appends each followed
      by a newline. */
  lemma {:induction false} EmitLnAllLayout(text: string, level: int, xs: seq<string>)
    requires level <= 0 && forall i :: 0 <= i < |xs| ==> Clean(xs[i])
    ensures EmitLnAll(text, level, xs) == text + NlJoined(xs)
    decreases |xs|
  {
    if xs != [] {
      EmitLnVerbatim(text, level, xs[0]);
      EmitLnAllLayout(text + xs[0] + "\n", level, xs[1..]);
      AppendAssoc(text, xs[0], "\n");
      AppendAssoc(text, xs[0] + "\n", NlJoined(xs[1..]));
    }
  }

  lemma {:induction false} EmitLnAllSnoc(text: string, level: int, xs: seq<string>, x: string)
    ensures EmitLnAll(text, level, xs + [x]) == EmitLnText(EmitLnAll(text, level, xs), level, x)
    decreases |xs|
  {
    if xs != [] {
      assert (xs + [x])[1..] == xs[1..] + [x];
      EmitLnAllSnoc(EmitLnText(text, level, xs[0]), level, xs[1..], x);
    }
  }

  /** Emitting one more line of a list. */
  lemma EmitLnAllStep(text: string, level: int, xs: seq<string>, i: int)
    requires 0 <= i < |xs|
    ensures EmitLnAll(text, level, xs[..i + 1]) == EmitLnText(EmitLnAll(text, level, xs[..i]), level, xs[i])
  {
    EmitLnAllSnoc(text, level, xs[..i], xs[i]);
    assert xs[..i + 1] == xs[..i] + [xs[i]];
  }

  /** Python's `s[0:3]` and `s[3:-3]`: the quote and the text between the
      quotes of a triple-quoted string. */
  function Quote(s: string): string {
    if |s| >= 3 then s[..3] else s
  }

  function Inner(s: string): string {
    if |s| >= 6 then s[3..|s| - 3] else ""
  }

  /** Python's `xs[1:-1]`. */
  function Middle<T>(xs: seq<T>): seq<T> {
    if |xs| >= 2 then xs[1..|xs| - 1] else []
  }

  /** `lstrip` of each string. */
  function LStrips(xs: seq<string>): (r: seq<string>)
    ensures |r| == |xs| && forall k :: 0 <= k < |xs| ==> r[k] == LStrip(xs[k])
  {
    if xs == [] then [] else [LStrip(xs[0])] + LStrips(xs[1..])
  }

  /** The docstring rendering: one quoted segment per line, every segment
      but the last ending in an escaped newline. */
  function DocSegments(q: string, lines: seq<string>): (r: seq<string>)
    requires lines != []
    ensures |r| == |lines|
    ensures forall k :: 0 <= k < |lines| - 1 ==> r[k] == q + lines[k] + "\\n" + q
    ensures r[|lines| - 1] == q + lines[|lines| - 1] + q
  {
    seq(|lines|, k requires 0 <= k < |lines| =>
      if k < |lines| - 1 then q + lines[k] + "\\n" + q else q + lines[k] + q)
  }

  /** Where a string literal sits: under a non-multi-string expression,
      as a brace inside an f-string, or elsewhere. */
  datatype StrParent = PlainExpr | FStringPart | Elsewhere

  /** A docstring under a plain expression: every segment but the last as
      a line of its own, then the last segment. */
  function DocText(text: string, level: int, q: string, lines: seq<string>): string
    requires lines != []
  {
    var segs := DocSegments(q, lines);
    EmitText(EmitLnAll(text, level, segs[..|segs| - 1]), level, segs[|segs| - 1], true)
  }

  /** Any other string holding a newline: the quote and the first line,
      the middle lines, then the last line and the quote, each line
      without its leading whitespace. */
  function LinesText(text: string, level: int, q: string, lines: seq<string>): string
    requires lines != []
  {
    var first := EmitLnText(text, level, q + LStrip(lines[0]));
    EmitText(EmitLnAll(first, level, LStrips(Middle(lines))), level, LStrip(lines[|lines| - 1]) + q, true)
  }

  /** `exit_string`. */
  function StringText(text: string, level: int, value: string, parent: StrParent): string {
    var q, lines := Quote(value), Split(Inner(value), '\n');
    if HasNewline(value) && parent == PlainExpr then DocText(text, level, q, lines)
    else
      var t := if (value == "{" || value == "}") && parent == FStringPart then EmitText(text, level, value, true) else text;
      if HasNewline(value) then LinesText(t, level, q, lines) else EmitText(t, level, value, true)
  }

  /** A quote with no whitespace at its ends and no newline, around a
      text without a newline, is clean. */
  lemma QuotedClean(q: string, m: string)
    requires q != [] && !HasNewline(q) && !IsSpace(q[0]) && !IsSpace(q[|q| - 1])
    requires !HasNewline(m)
    ensures Clean(q + m + q)
  {
    HasNewlineAppend(q, m);
    HasNewlineAppend(q + m, q);
    assert (q + m + q)[0] == q[0];
    assert (q + m + q)[|q + m + q| - 1] == q[|q| - 1];
  }

  /** A quoted line ending in an escaped newline is clean: the escape is a
      backslash and an `n`, not a line break. */
  lemma EscapedClean(q: string, m: string)
    requires q != [] && !HasNewline(q) && !IsSpace(q[0]) && !IsSpace(q[|q| - 1])
    requires !HasNewline(m)
    ensures Clean(q + m + "\\n" + q)
  {
    var esc := "\\n";
    assert !HasNewline(esc) by {
      assert esc[1..][1..] == [];
    }
    HasNewlineAppend(m, esc);
    QuotedClean(q, m + esc);
    assert q + (m + esc) + q == q + m + esc + q;
  }

  /** Each docstring segment of newline-free lines is clean. */
  lemma DocSegmentClean(q: string, lines: seq<string>, k: int)
    requires q != [] && !HasNewline(q) && !IsSpace(q[0]) && !IsSpace(q[|q| - 1])
    requires 0 <= k < |lines| && !HasNewline(lines[k])
    ensures Clean(DocSegments(q, lines)[k])
  {
    if k < |lines| - 1 {
      EscapedClean(q, lines[k]);
    } else {
      QuotedClean(q, lines[k]);
    }
  }

  lemma DocSegmentsClean(q: string, lines: seq<string>)
    requires q != [] && !HasNewline(q) && !IsSpace(q[0]) && !IsSpace(q[|q| - 1])
    requires lines != [] && forall k :: 0 <= k < |lines| ==> !HasNewline(lines[k])
    ensures forall k :: 0 <= k < |lines| ==> Clean(DocSegments(q, lines)[k])
  {
    forall k | 0 <= k < |lines| {
      DocSegmentClean(q, lines, k);
    }
  }

  /** Joining with newlines is putting a newline after every item but
      the last. */
  lemma NlJoinedLast(p: string, xs: seq<string>)
    requires xs != []
    ensures p + NlJoined(xs[..|xs| - 1]) + xs[|xs| - 1] == p + Join(xs, "\n")
  {
    var init, last := xs[..|xs| - 1], xs[|xs| - 1];
    assert init + [last] == xs;
    NlJoinedIsJoin(init, last);
    AppendAssoc(p, NlJoined(init), last);
  }

  /** Concatenation is associative. */
  lemma AppendAssoc(p: string, a: string, b: string)
    ensures p + a + b == p + (a + b)
  {
  }

  /** At the outermost level every docstring segment but the last comes
      out followed by a newline. */
  lemma DocInit(text: string, level: int, q: string, lines: seq<string>)
    requires level <= 0 && q != [] && !HasNewline(q) && !IsSpace(q[0]) && !IsSpace(q[|q| - 1])
    requires lines != [] && forall k :: 0 <= k < |lines| ==> !HasNewline(lines[k])
    ensures var init := DocSegments(q, lines)[..|lines| - 1];
      EmitLnAll(text, level, init) == text + NlJoined(init)
  {
    var init := DocSegments(q, lines)[..|lines| - 1];
    DocSegmentsClean(q, lines);
    assert forall i :: 0 <= i < |init| ==> Clean(init[i]);
    EmitLnAllLayout(text, level, init);
  }

  /** At the outermost level the last docstring segment comes out as it
      is. */
  lemma DocLast(text: string, level: int, q: string, lines: seq<string>)
    requires level <= 0 && q != [] && !HasNewline(q) && !IsSpace(q[0]) && !IsSpace(q[|q| - 1])
    requires lines != [] && forall k :: 0 <= k < |lines| ==> !HasNewline(lines[k])
    ensures var last := DocSegments(q, lines)[|lines| - 1];
      EmitText(text, level, last, true) == text + last
  {
    DocSegmentClean(q, lines, |lines| - 1);
    EmitVerbatim(text, level, DocSegments(q, lines)[|lines| - 1]);
  }

  /** At the outermost level, docstring segments of newline-free lines
      under a clean quote come out joined by newlines. */
  lemma DocTextLayout(text: string, level: int, q: string, lines: seq<string>)
    requires level <= 0 && q != [] && !HasNewline(q) && !IsSpace(q[0]) && !IsSpace(q[|q| - 1])
    requires lines != [] && forall k :: 0 <= k < |lines| ==> !HasNewline(lines[k])
    ensures DocText(text, level, q, lines) == text + Join(DocSegments(q, lines), "\n")
  {
    var segs := DocSegments(q, lines);
    var init, last := segs[..|segs| - 1], segs[|segs| - 1];
    DocInit(text, level, q, lines);
    DocLast(text + NlJoined(init), level, q, lines);
    NlJoinedLast(text, segs);
  }

  /** At the outermost level, a docstring whose quote has no whitespace
      at either end and no newline becomes exactly its segments joined by
      newlines. */
  lemma DocstringLayout(text: string, level: int, value: string)
    requires level <= 0 && HasNewline(value)
    requires Quote(value) != [] && !HasNewline(Quote(value))
    requires !IsSpace(Quote(value)[0]) && !IsSpace(Quote(value)[|Quote(value)| - 1])
    ensures var segs := DocSegments(Quote(value), Split(Inner(value), '\n'));
            StringText(text, level, value, PlainExpr) == text + Join(segs, "\n")
  {
    var lines := Split(Inner(value), '\n');
    forall k | 0 <= k < |lines| ensures !HasNewline(lines[k]) {
      HasNewlineIn(lines[k]);
    }
    DocTextLayout(text, level, Quote(value), lines);
  }

  /** At the outermost level a brace inside an f-string comes out
      doubled. */
  lemma FStringBraceDoubled(text: string, level: int, value: string)
    requires level <= 0 && (value == "{" || value == "}")
    ensures StringText(text, level, value, FStringPart) == text + value + value
  {
    EmitVerbatim(text, level, value);
    EmitVerbatim(text + value, level, value);
  }

  /** At the outermost level any other one-line string that does not end
      in a space is appended as it is. */
  lemma OneLineString(text: string, level: int, value: string, parent: StrParent)
    requires level <= 0 && !HasNewline(value) && value != [] && value[|value| - 1] != ' '
    requires !((value == "{" || value == "}") && parent == FStringPart)
    ensures StringText(text, level, value, parent) == text + value
  {
    EmitVerbatim(text, level, value);
  }

  /** The parts of a module's header the module handler emits. */
  datatype ModKid =
    | KString(text: string)
    | KComment(text: string, inline: bool)
    | KToken(value: string)
    | KSubTag(texts: seq<string>)
    | KOther

  /** An item of a module's body, with its source lines and its text. */
  datatype BodyItem = BodyItem(firstLine: int, lastLine: int, isImport: bool, isArchitype: bool, text: string)

  /** Emit each string in turn, in strip mode. */
  function EmitAll(text: string, level: int, xs: seq<string>): string
    decreases |xs|
  {
    if xs == [] then text else EmitAll(EmitText(text, level, xs[0], true), level, xs[1..])
  }

  /** One kid of the module header: a docstring as a line and a blank
      line; an inline comment after a space; another comment as a line,
      after a blank line unless it is the first kid; a token and a space;
      the texts of a sub-tag. */
  function HeaderKid(text: string, level: int, k: ModKid, first: bool): string {
    match k
    case KString(s) => EmitLnText(EmitLnText(text, level, " " + s), level, "")
    case KComment(s, inline) =>
      if inline then EmitText(text, level, " " + s, true)
      else EmitLnText(if first then text else EmitLnText(text, level, ""), level, s)
    case KToken(v) => EmitText(text, level, v + " ", true)
    case KSubTag(ts) => EmitAll(text, level, ts)
    case KOther => text
  }

  /** `exit_module`'s first loop over the header kids. */
  function ModuleHeader(text: string, level: int, kids: seq<ModKid>, first: bool): string
    decreases |kids|
  {
    if kids == [] then text else ModuleHeader(HeaderKid(text, level, kids[0], first), level, kids[1..], false)
  }

  lemma HeaderStep(t: string, level: int, kids: seq<ModKid>, first: bool)
    requires kids != []
    ensures ModuleHeader(t, level, kids, first) == ModuleHeader(HeaderKid(t, level, kids[0], first), level, kids[1..], false)
  {
  }

  /** A blank line goes between two body items when their source gap is
      more than one line and the earlier item's text does not already end
      in a blank line. */
  predicate GapBlank(last: BodyItem, i: BodyItem) {
    i.firstLine - last.lastLine > 1 && !EndsWith(last.text, "\n\n")
  }

  /** Two architypes two lines apart get a blank line unless the output
      already ends in one. */
  predicate ArchBlank(last: BodyItem, i: BodyItem, text: string) {
    i.isArchitype && last.isArchitype && i.firstLine - last.lastLine == 2 && !EndsWith(text, "\n\n")
  }

  /** One body item: the gap rule's blank line, then (for a non-import)
      the architype rule's blank line, then the item as a line. */
  function BodyStep(text: string, level: int, last: Option<BodyItem>, i: BodyItem): string {
    var t1 := if last.Some? && GapBlank(last.value, i) then EmitLnText(text, level, "") else text;
    var t2 := if !i.isImport && last.Some? && ArchBlank(last.value, i, t1) then EmitLnText(t1, level, "") else t1;
    EmitLnText(t2, level, i.text)
  }

  /** `exit_module`'s second loop over the body items. */
  function ModuleBody(text: string, level: int, last: Option<BodyItem>, items: seq<BodyItem>): string
    decreases |items|
  {
    if items == [] then text else ModuleBody(BodyStep(text, level, last, items[0]), level, Some(items[0]), items[1..])
  }

  lemma BodyStepUnfold(t: string, level: int, last: Option<BodyItem>, items: seq<BodyItem>)
    requires items != []
    ensures ModuleBody(t, level, last, items) == ModuleBody(BodyStep(t, level, last, items[0]), level, Some(items[0]), items[1..])
  {
  }

  /** `emit_ln` always ends a line. */
  lemma EmitLnEndsLine(text: string, level: int, s: string)
    ensures EndsLine(EmitLnText(text, level, s))
  {
    var x := EmitText(text, level, Strip(s), true) + IndentStr(level);
    assert EmitLnText(text, level, s) == x + "\n";
  }

  /** A module with a body always ends its text with a newline. */
  lemma {:induction false} ModuleBodyEndsNewline(text: string, level: int, last: Option<BodyItem>, items: seq<BodyItem>)
    requires items != []
    ensures EndsLine(ModuleBody(text, level, last, items))
    decreases |items|
  {
    var i := items[0];
    var t := BodyStep(text, level, last, i);
    BodyStepUnfold(text, level, last, items);
    if |items| == 1 {
      var t1 := if last.Some? && GapBlank(last.value, i) then EmitLnText(text, level, "") else text;
      var t2 := if !i.isImport && last.Some? && ArchBlank(last.value, i, t1) then EmitLnText(t1, level, "") else t1;
      assert t == EmitLnText(t2, level, i.text);
      EmitLnEndsLine(t2, level, i.text);
      assert ModuleBody(t, level, Some(i), items[1..]) == t;
    } else {
      ModuleBodyEndsNewline(t, level, Some(i), items[1..]);
    }
  }

  /** One step of the body layout at the outermost level, after an earlier
      item, on an output that ends a line: exactly one blank line precedes
      a clean item when the gap rule or (for a non-import) the architype
      rule asks for it, and none otherwise; so there is never more than one
      blank line between items. */
  lemma ModuleBodyStep(text: string, level: int, last: BodyItem, i: BodyItem)
    requires level <= 0 && Clean(i.text) && EndsLine(text)
    ensures BodyStep(text, level, Some(last), i)
            == text + (if GapBlank(last, i) || (!i.isImport && ArchBlank(last, i, text)) then "\n" else "") + i.text + "\n"
  {
    var t1 := if GapBlank(last, i) then EmitLnText(text, level, "") else text;
    var t2 := if !i.isImport && ArchBlank(last, i, t1) then EmitLnText(t1, level, "") else t1;
    assert BodyStep(text, level, Some(last), i) == EmitLnText(t2, level, i.text);
    if GapBlank(last, i) {
      BlankLine(text, level);
      assert t1 == text + "\n";
      assert EndsWith(t1, "\n\n") by {
        assert t1[|t1| - 2..] == [text[|text| - 1], '\n'];
      }
      assert t2 == text + "\n";
    } else if !i.isImport && ArchBlank(last, i, text) {
      BlankLine(text, level);
      assert t2 == text + "\n";
    } else {
      assert t2 == text;
    }
    EmitLnVerbatim(t2, level, i.text);
  }

  /** The text of a unary expression, or the error for an operator the
      formatter does not support. */
  function UnaryText(opName: string, opValue: string, operand: string): (r: Result<string>)
    ensures r.Err? <==> !(opValue in ["-", "~", "+", "*", "**", "(", "not"]
                          || opName in ["PIPE_FWD", "KW_SPAWN", "A_PIPE_FWD", "BW_AND"])
    ensures r.Ok? ==> EndsWith(r.value, if opValue == "(" then operand + ")" else operand)
    ensures r.Ok? ==> StartsWith(r.value, opValue)
  {
    if opValue in ["-", "~", "+", "*", "**"] then Ok(opValue + operand)
    else if opValue == "(" then Ok("(" + operand + ")")
    else if opValue == "not" then Ok("not " + operand)
    else if opName in ["PIPE_FWD", "KW_SPAWN", "A_PIPE_FWD"] then Ok(opValue + " " + operand)
    else if opName in ["BW_AND"] then Ok(opValue + operand)
    else Err("Unary operator " + opValue + " not supported in bootstrap Jac")
  }

  /** The binary operators the formatter writes as `left op right`. */
  const BinaryOps: seq<string> := [
    "+", "-", "*", "/", "%", "**",
    "+=", "-=", "*=", "/=", "%=", "**=",
    ">>", "<<", ">>=", "<<=",
    "//=", "&=", "|=", "^=", "~=",
    "//", "&", "|", "^",
    ">", "<", ">=", "<=", "==", "!=", ":=",
    "and", "or", "in", "not in", "is", "is not"]

  const BinaryOpNames: seq<string> := ["PIPE_BKWD", "A_PIPE_BKWD", "PIPE_FWD", "KW_SPAWN", "A_PIPE_FWD"]

  /** The operator of a binary expression: a connect or disconnect
      operator (with its own text), a token, or something else. */
  datatype BinOp = ConnectLike(text: string) | TokenOp(name: string, value: string) | OtherOp

  /** The trailing kid of an expression: a semicolon or comment (with its
      value), or anything else. */
  datatype Trailer = SemiOrComment(value: string) | NoTrailer

  /** The text of a binary expression: `left op right` with single spaces;
      `None` when nothing is emitted, an error for an unsupported token. */
  function BinaryText(left: string, op: BinOp, right: string, ops: seq<string>, names: seq<string>): (r: Result<Option<string>>)
    ensures op.OtherOp? ==> r == Ok(None)
    ensures op.TokenOp? ==> (r.Err? <==> op.value !in ops && op.name !in names)
    ensures r.Ok? && r.value.Some? ==>
              r.value.value == left + " " + (if op.ConnectLike? then op.text else op.value) + " " + right
  {
    match op
    case ConnectLike(t) => Ok(Some(left + " " + t + " " + right))
    case TokenOp(name, value) =>
      if value in ops || name in names then Ok(Some(left + " " + value + " " + right))
      else Err("Binary operator " + value + " not supported in bootstrap Jac")
    case OtherOp => Ok(None)
  }

  /** The trailing semicolon or comment of an expression as a line, unless
      the text already ends a line. */
  function TrailerText(text: string, level: int, trailer: Trailer): string {
    if trailer.SemiOrComment? && !EndsLine(text) then EmitLnText(text, level, trailer.value) else text
  }

  /** `exit_binary_expr`. */
  function BinaryExprText(text: string, level: int, r: Result<Option<string>>, trailer: Trailer): string {
    TrailerText(if r.Ok? && r.value.Some? then EmitText(text, level, r.value.value, true) else text, level, trailer)
  }

  /** An expression with a trailing semicolon or comment always ends its
      line; without one, a supported operator's text is emitted and
      nothing more. */
  lemma BinaryExprLineEnd(text: string, level: int, r: Result<Option<string>>, trailer: Trailer)
    ensures trailer.SemiOrComment? ==> EndsLine(BinaryExprText(text, level, r, trailer))
    ensures trailer.NoTrailer? ==>
              BinaryExprText(text, level, r, trailer)
              == if r.Ok? && r.value.Some? then EmitText(text, level, r.value.value, true) else text
  {
    var t := if r.Ok? && r.value.Some? then EmitText(text, level, r.value.value, true) else text;
    if trailer.SemiOrComment? && !EndsLine(t) {
    }
  }

  /** The text before a closing brace: as it is when it already ends a
      line, followed by a line break otherwise. */
  function LineEnded(text: string, level: int): string {
    if EndsLine(text) then text else EmitLnText(text, level, "")
  }

  /** A closing brace: on the same line for an empty brace pair, on a line
      of its own otherwise. */
  function CloseBraceText(text: string, level: int, emptyPair: bool): string {
    EmitText(if emptyPair then text else LineEnded(text, level), level, "}", true)
  }

  /** At the outermost level, on a text that does not end in a space, a
      closing brace of a non-empty pair starts a line of its own. */
  lemma CloseBraceOwnLine(text: string, level: int)
    requires level <= 0 && (text == [] || text[|text| - 1] != ' ')
    ensures CloseBraceText(text, level, false) == (if EndsLine(text) then text else text + "\n") + "}"
  {
    if !EndsLine(text) {
      BlankLine(text, level);
    }
    EmitVerbatim(LineEnded(text, level), level, "}");
  }

  /** The one-line test string of `exit_bool_expr`: each operand, with the
      separator after every operand but the last. */
  method JoinLine(values: seq<string>, sep: string) returns (line: string)
    ensures line == Join(values, sep)
  {
    line := "";
    var i := 0;
    while i < |values|
      invariant 0 <= i <= |values|
      invariant i < |values| ==> line + Join(values[i..], sep) == Join(values, sep)
      invariant i == |values| ==> line == Join(values, sep)
    {
      assert i + 1 < |values| ==> Join(values[i..], sep) == values[i] + sep + Join(values[i + 1..], sep);
      line := line + values[i];
      if i != |values| - 1 {
        line := line + sep;
      }
      i := i + 1;
    }
  }

  class Formatter {
    /** The `gen.jac` text of every node entered so far. */
    var gen: map<NodeId, string>
    var indentLevel: int
    var errors: seq<string>
    /** Half the configured maximum line length. */
    const maxLineLength: int
    /** Operator tables, fixed at construction. */
    const binaryOps: seq<string>
    const binaryOpNames: seq<string>

    /** `before_pass`. */
    constructor (maxLineLength: int)
      ensures gen == map[] && indentLevel == 0 && errors == []
      ensures this.maxLineLength == maxLineLength
      ensures binaryOps == BinaryOps && binaryOpNames == BinaryOpNames
    {
      gen, indentLevel, errors := map[], 0, [];
      this.maxLineLength := maxLineLength;
      binaryOps, binaryOpNames := BinaryOps, BinaryOpNames;
    }

    /** `enter_node`: every node starts with the empty text. */
    method EnterNode(node: NodeId)
      modifies this`gen
      ensures gen == old(gen)[node := ""]
    {
      gen := gen[node := ""];
    }

    /** `emit`. */
    method Emit(node: NodeId, s: string, stripMode: bool)
      requires node in gen
      modifies this`gen
      ensures gen == old(gen)[node := EmitText(old(gen[node]), indentLevel, s, stripMode)]
    {
      gen := gen[node := EmitText(gen[node], indentLevel, s, stripMode)];
    }

    /** `emit_ln`: the node's text ends with a newline afterwards. */
    method EmitLn(node: NodeId, s: string)
      requires node in gen
      modifies this`gen
      ensures gen == old(gen)[node := EmitLnText(old(gen[node]), indentLevel, s)]
      ensures EndsLine(gen[node])
    {
      ghost var t := gen[node];
      Emit(node, Strip(s), true);
      Emit(node, "\n", true);
      EmitLnIsTwoEmits(t, indentLevel, s);
    }

    /** `comma_sep_node_list`, `dot_sep_node_list` and `sep_node_list`:
        the node's text becomes the item texts joined by `delim`. */
    method SepNodeList(node: NodeId, items: seq<string>, delim: string) returns (r: string)
      modifies this`gen
      ensures r == Join(items, delim) && gen == old(gen)[node := r]
    {
      r := Join(items, delim);
      gen := gen[node := r];
    }

    /** `nl_sep_node_list`: the node's text becomes each item text followed
        by a newline, that is the items joined by newlines plus one. */
    method NlSepNodeList(node: NodeId, items: seq<string>) returns (r: string)
      modifies this`gen
      ensures r == NlJoined(items) && gen == old(gen)[node := r]
      ensures items != [] ==> r == Join(items, "\n") + "\n"
    {
      r := "";
      var i := 0;
      while i < |items|
        invariant 0 <= i <= |items|
        invariant r + NlJoined(items[i..]) == NlJoined(items)
      {
        assert items[i..] == [items[i]] + items[i + 1..];
        r := r + items[i] + "\n";
        i := i + 1;
      }
      gen := gen[node := r];
      if items != [] {
        NlJoinedJoin(items);
      }
    }

    /** The broken form of `exit_bool_expr`. */
    method EmitBroken(node: NodeId, values: seq<string>, op: string)
      requires node in gen && values != []
      modifies this`gen
      ensures gen == old(gen)[node := BoolBroken(old(gen[node]), indentLevel, values, op)]
    {
      var t := gen[node];
      ghost var t0 := t;
      var n := |values|;
      var i := 0;
      while i < n - 1
        invariant 0 <= i <= n - 1 && gen == old(gen)
        invariant BoolBroken(t, indentLevel, values[i..], op) == BoolBroken(t0, indentLevel, values, op)
      {
        BoolBrokenStep(t, indentLevel, values[i..], op);
        assert values[i..][1..] == values[i + 1..];
        t := EmitLnText(t, indentLevel, values[i]);
        t := EmitText(t, indentLevel, Repeat(' ', IndentSize) + op + " ", false);
        i := i + 1;
      }
      assert values[n - 1..] == [values[n - 1]];
      t := EmitText(t, indentLevel, values[n - 1], true);
      gen := gen[node := t];
    }

    /** `exit_bool_expr`: fails when there is no operand (the source takes
        the last operand first). */
    method ExitBoolExpr(node: NodeId, values: seq<string>, op: string) returns (ok: bool)
      requires node in gen
      modifies this`gen
      ensures ok == (values != [])
      ensures ok ==> gen == old(gen)[node := BoolExprText(old(gen[node]), indentLevel, values, op, maxLineLength)]
      ensures !ok ==> gen == old(gen)
    {
      if values == [] {
        return false;
      }
      ok := true;
      var test := JoinLine(values, " " + op + " ");
      if IsLineBreakNeeded(test, 0, maxLineLength) {
        EmitBroken(node, values, op);
      } else {
        Emit(node, test, true);
      }
    }

    /** The docstring branch of `exit_string`: each line but the last
        as a quoted segment ending in an escaped newline, emitted as a
        line; then the last line quoted. */
    method EmitDocString(node: NodeId, q: string, lines: seq<string>)
      requires node in gen && lines != []
      modifies this`gen
      ensures gen == old(gen)[node := DocText(old(gen[node]), indentLevel, q, lines)]
    {
      ghost var segs := DocSegments(q, lines);
      ghost var t0 := gen[node];
      var t := gen[node];
      var i := 0;
      while i < |lines| - 1
        invariant 0 <= i <= |lines| - 1 && gen == old(gen)
        invariant t == EmitLnAll(t0, indentLevel, segs[..i])
      {
        EmitLnAllStep(t0, indentLevel, segs, i);
        var seg := q + lines[i] + "\\n" + q;
        assert seg == segs[i];
        t := EmitLnText(t, indentLevel, seg);
        i := i + 1;
      }
      var seg := q + lines[|lines| - 1] + q;
      assert seg == segs[|lines| - 1];
      t := EmitText(t, indentLevel, seg, true);
      gen := gen[node := t];
    }

    /** The other multi-line branch of `exit_string`: the quote and the
        first line, each middle line, then the last line and the quote,
        every line without its leading whitespace. */
    method EmitLines(node: NodeId, q: string, lines: seq<string>)
      requires node in gen && lines != []
      modifies this`gen
      ensures gen == old(gen)[node := LinesText(old(gen[node]), indentLevel, q, lines)]
    {
      var t := EmitLnText(gen[node], indentLevel, q + LStrip(lines[0]));
      ghost var start := t;
      var mid := Middle(lines);
      ghost var ms := LStrips(mid);
      var i := 0;
      while i < |mid|
        invariant 0 <= i <= |mid| && gen == old(gen)
        invariant t == EmitLnAll(start, indentLevel, ms[..i])
      {
        EmitLnAllStep(start, indentLevel, ms, i);
        t := EmitLnText(t, indentLevel, LStrip(mid[i]));
        i := i + 1;
      }
      assert ms[..|mid|] == ms;
      t := EmitText(t, indentLevel, LStrip(lines[|lines| - 1]) + q, true);
      gen := gen[node := t];
    }

    /** `exit_string`. */
    method ExitString(node: NodeId, value: string, parent: StrParent)
      requires node in gen
      modifies this`gen
      ensures gen == old(gen)[node := StringText(old(gen[node]), indentLevel, value, parent)]
    {
      var q := Quote(value);
      var lines := Split(Inner(value), '\n');
      if HasNewline(value) && parent == PlainExpr {
        EmitDocString(node, q, lines);
        return;
      }
      if (value == "{" || value == "}") && parent == FStringPart {
        Emit(node, value, true);
      }
      if HasNewline(value) {
        EmitLines(node, q, lines);
      } else {
        Emit(node, value, true);
      }
    }

    /** The trailing semicolon or comment of an expression. */
    method EmitTrailer(node: NodeId, trailer: Trailer)
      requires node in gen
      modifies this`gen
      ensures gen == old(gen)[node := TrailerText(old(gen[node]), indentLevel, trailer)]
    {
      if trailer.SemiOrComment? && !EndsLine(gen[node]) {
        EmitLn(node, trailer.value);
      }
    }

    /** `exit_binary_expr`: an unsupported token is reported and nothing
        is emitted for it. */
    method ExitBinaryExpr(node: NodeId, left: string, op: BinOp, right: string, trailer: Trailer)
      requires node in gen
      modifies this`gen, this`errors
      ensures var r := BinaryText(left, op, right, binaryOps, binaryOpNames);
              gen == old(gen)[node := BinaryExprText(old(gen[node]), indentLevel, r, trailer)]
              && errors == (if r.Err? then old(errors) + [r.msg] else old(errors))
    {
      var r := BinaryText(left, op, right, binaryOps, binaryOpNames);
      if r.Err? {
        errors := errors + [r.msg];
      } else if r.value.Some? {
        Emit(node, r.value.value, true);
      }
      EmitTrailer(node, trailer);
    }

    /** `exit_unary_expr`. */
    method ExitUnaryExpr(node: NodeId, opName: string, opValue: string, operand: string)
      requires node in gen
      modifies this`gen, this`errors
      ensures var r := UnaryText(opName, opValue, operand);
              (r.Ok? ==> gen == old(gen)[node := EmitText(old(gen[node]), indentLevel, r.value, true)] && errors == old(errors))
              && (r.Err? ==> gen == old(gen) && errors == old(errors) + [r.msg])
    {
      var r := UnaryText(opName, opValue, operand);
      if r.Ok? {
        Emit(node, r.value, true);
      } else {
        errors := errors + [r.msg];
      }
    }

    /** The opening brace of `exit_sub_node_list`, after a space. */
    method OpenBrace(node: NodeId)
      requires node in gen
      modifies this`gen
      ensures gen == old(gen)[node := EmitText(old(gen[node]), indentLevel, " {", true)]
    {
      Emit(node, " {", true);
    }

    /** `max(0, indent_level - 1)`. */
    method Dedent()
      modifies this`indentLevel
      ensures indentLevel >= 0
      ensures indentLevel == (if old(indentLevel) - 1 > 0 then old(indentLevel) - 1 else 0)
    {
      indentLevel := if 0 > indentLevel - 1 then 0 else indentLevel - 1;
    }

    /** A line break unless the node's text already ends a line. */
    method EndLine(node: NodeId)
      requires node in gen
      modifies this`gen
      ensures gen == old(gen)[node := LineEnded(old(gen[node]), indentLevel)]
      ensures EndsLine(gen[node])
    {
      if !EndsLine(gen[node]) {
        EmitLn(node, "");
      }
    }

    /** The closing brace of `exit_sub_node_list`: the indentation drops by
        one, never below zero; the brace stays on the line of an empty pair
        (the parent's text strips to an opening brace) and goes on a line
        of its own otherwise. */
    method CloseBrace(node: NodeId, parentText: string)
      requires node in gen
      modifies this`gen, this`indentLevel
      ensures indentLevel >= 0
      ensures indentLevel == (if old(indentLevel) - 1 > 0 then old(indentLevel) - 1 else 0)
      ensures gen == old(gen)[node := CloseBraceText(old(gen[node]), indentLevel, Strip(parentText) == "{")]
    {
      Dedent();
      if Strip(parentText) != "{" {
        EndLine(node);
      }
      Emit(node, "}", true);
    }

    /** `exit_module`: the header kids, then the body items as lines with
        the blank-line policy; the text then ends with a newline whenever
        there is a body item. */
    method ExitModule(node: NodeId, kids: seq<ModKid>, body: seq<BodyItem>)
      requires node in gen
      modifies this`gen
      ensures gen == old(gen)[node := ModuleBody(ModuleHeader(old(gen[node]), indentLevel, kids, true), indentLevel, None, body)]
      ensures body != [] ==> EndsLine(gen[node])
    {
      var t := gen[node];
      var rest := kids;
      var first := true;
      while rest != []
        invariant gen == old(gen)
        invariant ModuleHeader(t, indentLevel, rest, first) == ModuleHeader(old(gen[node]), indentLevel, kids, true)
        decreases |rest|
      {
        HeaderStep(t, indentLevel, rest, first);
        t := HeaderKid(t, indentLevel, rest[0], first);
        first := false;
        rest := rest[1..];
      }
      ghost var header := t;
      var last: Option<BodyItem> := None;
      var items := body;
      while items != []
        invariant gen == old(gen)
        invariant ModuleBody(t, indentLevel, last, items) == ModuleBody(header, indentLevel, None, body)
        decreases |items|
      {
        BodyStepUnfold(t, indentLevel, last, items);
        t := BodyStep(t, indentLevel, last, items[0]);
        last := Some(items[0]);
        items := items[1..];
      }
      gen := gen[node := t];
      if body != [] {
        ModuleBodyEndsNewline(header, indentLevel, None, body);
      }
    }
  }
}
