/** Two helpers of the Jac toolchain: the keyword alternation used to
    build grammar rules, and the conversion of PascalCase names to
    snake_case. */
module JacUtils {
  import opened Common

  // ---------------------------------------------------------------------
  // get_all_jac_keywords

  /** Builds the `|`-separated alternation of the lexer's keyword names:
      each keyword followed by `|`, then the last character dropped. */
  method GetAllJacKeywords(keys: seq<string>) returns (r: string)
    ensures r == Join(keys, "|")
  {
    var ret := "";
    var i := 0;
    while i < |keys|
      invariant 0 <= i <= |keys|
      invariant i == 0 ==> ret == ""
      invariant i > 0 ==> ret == Join(keys[..i], "|") + "|"
    {
      if i > 0 {
        JoinSnoc(keys[..i], keys[i], "|");
        assert keys[..i + 1] == keys[..i] + [keys[i]];
      } else {
        assert keys[..1] == [keys[0]];
      }
      ret := ret + keys[i] + "|";
      i := i + 1;
    }
    assert keys[..|keys|] == keys;
    r := if |ret| > 0 then ret[..|ret| - 1] else ret;
  }

  /** The alternation lists the keywords, in order and nothing else, when
      no keyword contains `|`. */
  lemma KeywordsRoundTrip(keys: seq<string>)
    requires |keys| >= 1
    requires forall i :: 0 <= i < |keys| ==> '|' !in keys[i]
    ensures Split(Join(keys, "|"), '|') == keys
  {
    SplitJoin(keys, '|');
  }

  // ---------------------------------------------------------------------
  // pascal_to_snake

  predicate IsUpper(c: char) {
    'A' <= c <= 'Z'
  }

  function LowerChar(c: char): (d: char)
    ensures !IsUpper(d)
    ensures !IsUpper(c) ==> d == c
  {
    if IsUpper(c) then (c as int - 'A' as int + 'a' as int) as char else c
  }

  /** `str.lower()` on the ASCII letters. */
  function Lower(s: string): (r: string)
    ensures |r| == |s|
    ensures forall i :: 0 <= i < |s| ==> r[i] == LowerChar(s[i])
  {
    if s == [] then [] else [LowerChar(s[0])] + Lower(s[1..])
  }

  /** The substitution applied to the characters after the first: an
      underscore before every uppercase letter. */
  function Underscored(s: string): string {
    if s == [] then [] else (if IsUpper(s[0]) then "_" else "") + [s[0]] + Underscored(s[1..])
  }

  /** `re.sub(r"(?<!^)(?=[A-Z])", "_", s)`: the empty match before an
      uppercase letter is replaced everywhere except at the start. */
  function InsertUnderscores(s: string): string {
    if s == [] then [] else [s[0]] + Underscored(s[1..])
  }

  /** `pascal_to_snake`; the result has no uppercase letter. */
  function PascalToSnake(s: string): (r: string)
    ensures forall i :: 0 <= i < |r| ==> !IsUpper(r[i])
  {
    Lower(InsertUnderscores(s))
  }

  function CountUpper(s: string): nat {
    if s == [] then 0 else (if IsUpper(s[0]) then 1 else 0) + CountUpper(s[1..])
  }

  lemma {:induction false} UnderscoredLength(s: string)
    ensures |Underscored(s)| == |s| + CountUpper(s)
    decreases |s|
  {
    if s != [] {
      UnderscoredLength(s[1..]);
    }
  }

  /** One underscore is inserted per uppercase letter after the first
      position. */
  lemma PascalToSnakeLength(s: string)
    ensures |PascalToSnake(s)| == if s == [] then 0 else |s| + CountUpper(s[1..])
  {
    if s != [] {
      UnderscoredLength(s[1..]);
    }
  }

  lemma {:induction false} UnderscoredNoUpper(s: string)
    requires CountUpper(s) == 0
    ensures Underscored(s) == s
    decreases |s|
  {
    if s != [] {
      UnderscoredNoUpper(s[1..]);
      assert s == [s[0]] + s[1..];
    }
  }

  lemma {:induction false} LowerNoUpper(s: string)
    requires CountUpper(s) == 0
    ensures Lower(s) == s
    decreases |s|
  {
    if s != [] {
      LowerNoUpper(s[1..]);
      assert s == [s[0]] + s[1..];
    }
  }

  /** A name without uppercase letters is returned unchanged. */
  lemma PascalToSnakeIdentity(s: string)
    requires CountUpper(s) == 0
    ensures PascalToSnake(s) == s
  {
    if s != [] {
      UnderscoredNoUpper(s[1..]);
      assert InsertUnderscores(s) == s;
    }
    LowerNoUpper(s);
  }

  lemma {:induction false} UnderscoredAppend(a: string, b: string)
    ensures Underscored(a + b) == Underscored(a) + Underscored(b)
    decreases |a|
  {
    if a != [] {
      assert (a + b)[1..] == a[1..] + b;
      UnderscoredAppend(a[1..], b);
    } else {
      assert a + b == b;
    }
  }

  /** The substitution puts one underscore at the boundary before a
      capitalised word. */
  lemma InsertUnderscoresWords(a: string, w: string)
    requires a != [] && w != [] && IsUpper(w[0])
    ensures InsertUnderscores(a + w) == InsertUnderscores(a) + "_" + InsertUnderscores(w)
  {
    var ua, uw := Underscored(a[1..]), Underscored(w[1..]);
    assert Underscored(w) == "_" + ([w[0]] + uw);
    assert InsertUnderscores(w) == [w[0]] + uw;
    assert (a + w)[1..] == a[1..] + w;
    UnderscoredAppend(a[1..], w);
    calc {
      InsertUnderscores(a + w);
      [a[0]] + Underscored(a[1..] + w);
      [a[0]] + (ua + ("_" + InsertUnderscores(w)));
      ([a[0]] + ua) + "_" + InsertUnderscores(w);
    }
  }

  /** A word boundary: appending a capitalised word `W…` to a name gives
      the name's snake form, `_` and the word's snake form. */
  lemma PascalToSnakeWords(a: string, w: string)
    requires a != [] && w != [] && IsUpper(w[0])
    ensures PascalToSnake(a + w) == PascalToSnake(a) + "_" + PascalToSnake(w)
  {
    InsertUnderscoresWords(a, w);
    var x := InsertUnderscores(a);
    var y := InsertUnderscores(w);
    LowerAppend(x + "_", y);
    LowerAppend(x, "_");
  }

  lemma {:induction false} LowerAppend(a: string, b: string)
    ensures Lower(a + b) == Lower(a) + Lower(b)
  {
    var l, r := Lower(a + b), Lower(a) + Lower(b);
    assert |l| == |r|;
    forall i | 0 <= i < |l|
      ensures l[i] == r[i]
    {
      if i < |a| {
        assert (a + b)[i] == a[i];
      } else {
        assert (a + b)[i] == b[i - |a|];
      }
    }
  }
}
