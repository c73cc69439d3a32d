/**
  Text primitives the parser and the query engine rely on, restricted to
  ASCII: the regex classes `\s`, `\w`, `\d`, the address class
  `[\d.:%\[\]]`, `str.split`, `str.strip`, `str.upper`, substring
  containment, `int()` of a digit string and Python's string ordering.
 */
module Text {
  import opened Wrappers

  /** `\s` and `str.isspace` on ASCII: space, \t \n \v \f \r and the separators 0x1C..0x1F. */
  predicate IsSpace(c: char) {
    c == ' ' || ('\t' <= c <= '\r') || ('\U{1C}' <= c <= '\U{1F}')
  }

  /** `\d` and `str.isdigit` on ASCII. */
  predicate IsDigit(c: char) {
    '0' <= c <= '9'
  }

  predicate IsLower(c: char) {
    'a' <= c <= 'z'
  }

  /** `\w` on ASCII: letters, digits and the underscore. */
  predicate IsWord(c: char) {
    IsDigit(c) || IsLower(c) || ('A' <= c <= 'Z') || c == '_'
  }

  /** The address class `[\d.:%\[\]]` of both ss line patterns. */
  predicate IsAddr(c: char) {
    IsDigit(c) || c == '.' || c == ':' || c == '%' || c == '[' || c == ']'
  }

  /** The character classes the two line patterns are built from; `Dot` is `.` (anything but a newline). */
  datatype Class = Space | Word | Digit | Addr | Dot

  predicate InClass(c: char, k: Class) {
    match k
    case Space => IsSpace(c)
    case Word => IsWord(c)
    case Digit => IsDigit(c)
    case Addr => IsAddr(c)
    case Dot => c != '\n'
  }

  predicate AllIn(s: string, k: Class) {
    forall i :: 0 <= i < |s| ==> InClass(s[i], k)
  }

  /** `s` is what `k+` can match: a non-empty run of class `k`. */
  predicate Run(s: string, k: Class) {
    s != [] && AllIn(s, k)
  }

  /** Length of the longest prefix of `s` inside class `k`: what a greedy `k*` consumes. */
  function Span(s: string, k: Class): (n: nat)
    ensures n <= |s|
    ensures forall i :: 0 <= i < n ==> InClass(s[i], k)
    ensures n < |s| ==> !InClass(s[n], k)
  {
    if s == [] || !InClass(s[0], k) then 0 else 1 + Span(s[1..], k)
  }

  /** Length of the longest suffix of `s` inside class `k`. */
  function TrailingSpan(s: string, k: Class): (n: nat)
    ensures n <= |s|
    ensures forall i :: |s| - n <= i < |s| ==> InClass(s[i], k)
    ensures n < |s| ==> !InClass(s[|s| - n - 1], k)
  {
    if s == [] || !InClass(s[|s| - 1], k) then 0 else 1 + TrailingSpan(s[..|s| - 1], k)
  }

  /** A token taken off the front of a string and what remains after it. */
  datatype Cut = Cut(taken: string, rest: string)

  /** Greedy `k+` at the front of `s`: the maximal non-empty run of class `k`, or `None`. */
  function Token(s: string, k: Class): (r: Option<Cut>)
    ensures r.Some? ==> Run(r.value.taken, k) && s == r.value.taken + r.value.rest
    ensures r.Some? ==> r.value.rest == [] || !InClass(r.value.rest[0], k)
    ensures r.None? <==> s == [] || !InClass(s[0], k)
  {
    var n := Span(s, k);
    if n == 0 then None else Some(Cut(s[..n], s[n..]))
  }

  /** A run of class `k` followed by a character outside `k` is exactly the token `k+` takes. */
  lemma TokenOfRun(a: string, b: string, k: Class)
    requires Run(a, k)
    requires b == [] || !InClass(b[0], k)
    ensures Token(a + b, k) == Some(Cut(a, b))
  {
    assert forall i :: 0 <= i < |a| ==> (a + b)[i] == a[i];
    assert |a| < |a + b| ==> (a + b)[|a|] == b[0];
    assert Span(a + b, k) == |a|;
    assert (a + b)[..|a|] == a && (a + b)[|a|..] == b;
  }

  /** The concatenation of a list of strings. */
  function Concat(parts: seq<string>): string {
    if parts == [] then [] else parts[0] + Concat(parts[1..])
  }

  lemma {:induction false} ConcatSnoc(parts: seq<string>, x: string)
    ensures Concat(parts + [x]) == Concat(parts) + x
  {
    if parts != [] {
      assert (parts + [x])[1..] == parts[1..] + [x];
      ConcatSnoc(parts[1..], x);
    }
  }

  /** What a concatenation of greedy class runs `k1+ k2+ ... kn+` captures at the front of `s`. */
  datatype Tokens = Tokens(taken: seq<string>, rest: string)

  /** Greedy runs of the classes `ks`, one after the other, at the front of `s`. */
  function Tokenize(s: string, ks: seq<Class>): (r: Option<Tokens>)
    ensures r.Some? ==> |r.value.taken| == |ks|
  {
    if ks == [] then Some(Tokens([], s))
    else
      var c :- Token(s, ks[0]);
      var t :- Tokenize(c.rest, ks[1..]);
      Some(Tokens([c.taken] + t.taken, t.rest))
  }

  /** The runs greedy tokenizing captures, followed by what is left, make up the input. */
  lemma {:induction false} TokenizeGlues(s: string, ks: seq<Class>)
    requires Tokenize(s, ks).Some?
    ensures var t := Tokenize(s, ks).value; Concat(t.taken) + t.rest == s
  {
    if ks != [] {
      var c := Token(s, ks[0]).value;
      var t := Tokenize(c.rest, ks[1..]).value;
      TokenizeGlues(c.rest, ks[1..]);
      DropFirstAppend([c.taken], t.taken);
      calc {
        Concat([c.taken] + t.taken) + t.rest;
        (c.taken + Concat(t.taken)) + t.rest;
        { Assoc(c.taken, Concat(t.taken), t.rest); }
        c.taken + (Concat(t.taken) + t.rest);
        s;
      }
    }
  }

  /** Each captured run is a non-empty run of its class, and the last one stops where its class ends. */
  lemma {:induction false} TokenizeRuns(s: string, ks: seq<Class>)
    requires Tokenize(s, ks).Some?
    ensures var t := Tokenize(s, ks).value; forall i :: 0 <= i < |ks| ==> Run(t.taken[i], ks[i])
    ensures var t := Tokenize(s, ks).value; ks != [] ==> t.rest == [] || !InClass(t.rest[0], ks[|ks| - 1])
  {
    if ks != [] {
      var c := Token(s, ks[0]).value;
      var t := Tokenize(c.rest, ks[1..]).value;
      TokenizeRuns(c.rest, ks[1..]);
      TokenizeCons(s, ks, c, t);
      RunsCons(c.taken, t.taken, ks);
      if |ks| == 1 {
        assert t.rest == c.rest;
      } else {
        assert ks[1..][|ks| - 2] == ks[|ks| - 1];
      }
    }
  }

  /** A run of the first class in front of runs of the other classes. */
  lemma RunsCons(x: string, xs: seq<string>, ks: seq<Class>)
    requires ks != [] && |xs| == |ks| - 1 && Run(x, ks[0])
    requires forall i :: 0 <= i < |xs| ==> Run(xs[i], ks[1..][i])
    ensures forall i :: 0 <= i < |ks| ==> Run(([x] + xs)[i], ks[i])
  {
    assert forall i :: 0 < i < |ks| ==> ([x] + xs)[i] == xs[i - 1] && ks[i] == ks[1..][i - 1];
  }

  /** Consecutive runs whose neighbours start outside the previous class. */
  predicate Abutting(pieces: seq<string>, ks: seq<Class>)
    requires |pieces| == |ks|
  {
    && (forall i :: 0 <= i < |ks| ==> Run(pieces[i], ks[i]))
    && (forall i :: 0 <= i < |ks| - 1 ==> pieces[i + 1] != [] && !InClass(pieces[i + 1][0], ks[i]))
  }

  /** Concatenating a list of runs and a remainder, peeling off the first run. */
  lemma ConcatCons(pieces: seq<string>, rest: string)
    requires pieces != []
    ensures Concat(pieces) + rest == pieces[0] + (Concat(pieces[1..]) + rest)
  {
    calc {
      Concat(pieces) + rest;
      (pieces[0] + Concat(pieces[1..])) + rest;
      pieces[0] + (Concat(pieces[1..]) + rest);
    }
  }

  /** Dropping the first run keeps the rest abutting. */
  lemma AbuttingTail(pieces: seq<string>, ks: seq<Class>)
    requires |pieces| == |ks| > 0 && Abutting(pieces, ks)
    ensures Abutting(pieces[1..], ks[1..])
  {
    assert forall i :: 0 <= i < |ks| - 1 ==> pieces[1..][i] == pieces[i + 1] && ks[1..][i] == ks[i + 1];
  }

  /** The text after the first run starts where that run's class ends. */
  lemma AbuttingFirstStops(pieces: seq<string>, rest: string, ks: seq<Class>)
    requires |pieces| == |ks| > 1 && Abutting(pieces, ks)
    ensures var tail := Concat(pieces[1..]) + rest; tail != [] && !InClass(tail[0], ks[0])
  {
    ConcatCons(pieces[1..], rest);
    assert pieces[1..][0] == pieces[1];
  }

  /** When every run stops where the next one starts and the last one stops where `rest` starts, greedy tokenizing finds exactly those runs. */
  lemma {:induction false} TokenizeExact(pieces: seq<string>, rest: string, ks: seq<Class>)
    requires |pieces| == |ks| && Abutting(pieces, ks)
    requires ks != [] ==> rest == [] || !InClass(rest[0], ks[|ks| - 1])
    ensures Tokenize(Concat(pieces) + rest, ks) == Some(Tokens(pieces, rest))
  {
    if ks != [] {
      var tail := Concat(pieces[1..]) + rest;
      ConcatCons(pieces, rest);
      if |ks| > 1 {
        AbuttingFirstStops(pieces, rest, ks);
        assert ks[1..][|ks| - 2] == ks[|ks| - 1];
      } else {
        assert pieces[1..] == [];
        assert tail == rest;
      }
      TokenOfRun(pieces[0], tail, ks[0]);
      AbuttingTail(pieces, ks);
      TokenizeExact(pieces[1..], rest, ks[1..]);
      TokenizeCons(Concat(pieces) + rest, ks, Cut(pieces[0], tail), Tokens(pieces[1..], rest));
      HeadSplit(pieces);
    } else {
      assert Concat(pieces) + rest == rest;
    }
  }

  /** Tokenizing against one class takes one greedy run. */
  lemma TokenizeOne(s: string, k: Class)
    requires Token(s, k).Some?
    ensures var c := Token(s, k).value; Tokenize(s, [k]) == Some(Tokens([c.taken], c.rest))
  {
    var c := Token(s, k).value;
    assert [k][0] == k && [k][1..] == [];
    assert Tokenize(c.rest, []) == Some(Tokens([], c.rest));
    assert [c.taken] + [] == [c.taken];
  }

  /** Tokenizing peels off one greedy run, then tokenizes what is left against the remaining classes. */
  lemma TokenizeCons(s: string, ks: seq<Class>, c: Cut, t: Tokens)
    requires ks != [] && Token(s, ks[0]) == Some(c) && Tokenize(c.rest, ks[1..]) == Some(t)
    ensures Tokenize(s, ks) == Some(Tokens([c.taken] + t.taken, t.rest))
  {
  }

  /**
    The runs `t` found agree with `pieces` except the last, which together with
    what is left spells the last piece and `rest`.
   */
  predicate Completes(t: Tokens, pieces: seq<string>, rest: string)
    requires |t.taken| == |pieces| > 0
  {
    && (forall i :: 0 <= i < |pieces| - 1 ==> t.taken[i] == pieces[i])
    && t.taken[|pieces| - 1] + t.rest == pieces[|pieces| - 1] + rest
  }

  /**
    When the runs abut and the last one is any run of its class, greedy tokenizing still
    succeeds, with the same runs but the last, which it may lengthen.
   */
  lemma {:induction false} TokenizeComplete(pieces: seq<string>, rest: string, ks: seq<Class>)
    requires |pieces| == |ks| > 0 && Abutting(pieces, ks)
    ensures Tokenize(Concat(pieces) + rest, ks).Some?
    ensures Completes(Tokenize(Concat(pieces) + rest, ks).value, pieces, rest)
  {
    if |ks| == 1 {
      TokenizeCompleteOne(pieces, rest, ks);
    } else {
      var tail := Concat(pieces[1..]) + rest;
      ConcatCons(pieces, rest);
      AbuttingFirstStops(pieces, rest, ks);
      TokenOfRun(pieces[0], tail, ks[0]);
      AbuttingTail(pieces, ks);
      TokenizeComplete(pieces[1..], rest, ks[1..]);
      var t := Tokenize(tail, ks[1..]).value;
      TokenizeCons(Concat(pieces) + rest, ks, Cut(pieces[0], tail), t);
      ConsCompletes(pieces, rest, t);
    }
  }

  /** `TokenizeComplete` for a single run. */
  lemma TokenizeCompleteOne(pieces: seq<string>, rest: string, ks: seq<Class>)
    requires |pieces| == |ks| == 1 && Run(pieces[0], ks[0])
    ensures Tokenize(Concat(pieces) + rest, ks).Some?
    ensures Completes(Tokenize(Concat(pieces) + rest, ks).value, pieces, rest)
  {
    var piece := pieces[0];
    ConcatCons(pieces, rest);
    assert pieces[1..] == [];
    assert Concat(pieces) + rest == piece + rest;
    assert ks == [ks[0]];
    assert (piece + rest)[0] == piece[0];
    TokenizeOne(piece + rest, ks[0]);
  }

  /** Putting the first piece back in front of runs that complete the other pieces. */
  lemma ConsCompletes(pieces: seq<string>, rest: string, t: Tokens)
    requires |pieces| > 1 && |t.taken| == |pieces| - 1 && Completes(t, pieces[1..], rest)
    ensures Completes(Tokens([pieces[0]] + t.taken, t.rest), pieces, rest)
  {
    var taken := [pieces[0]] + t.taken;
    forall i | 0 <= i < |pieces| - 1
      ensures taken[i] == pieces[i]
    {
      if i > 0 {
        assert taken[i] == t.taken[i - 1];
      }
    }
    assert taken[|pieces| - 1] == t.taken[|pieces| - 2];
  }

  // ----- str.split(sep) -----

  /** Python's `sep.join(parts)`. */
  function Join(parts: seq<string>, sep: char): string
    requires |parts| >= 1
  {
    if |parts| == 1 then parts[0] else parts[0] + [sep] + Join(parts[1..], sep)
  }

  /** Python's `s.split(sep)` for a one-character separator: the pieces between separators, always at least one. */
  function Split(s: string, sep: char): (parts: seq<string>)
    ensures |parts| >= 1
    ensures forall i :: 0 <= i < |parts| ==> sep !in parts[i]
    ensures Join(parts, sep) == s
  {
    if s == [] then [[]]
    else
      var t := Split(s[1..], sep);
      if s[0] == sep then
        assert Join([[]] + t, sep) == [sep] + Join(t, sep) by {
          assert ([[]] + t)[1..] == t;
        }
        [[]] + t
      else
        var parts := [[s[0]] + t[0]] + t[1..];
        assert Join(parts, sep) == [s[0]] + Join(t, sep) by {
          if |t| > 1 {
            assert parts[1..] == t[1..];
          }
        }
        assert s == [s[0]] + s[1..];
        parts
  }

  /** Splitting undoes joining: `split` recovers any separator-free pieces it is given back joined. */
  lemma {:induction false} SplitJoin(parts: seq<string>, sep: char)
    requires |parts| >= 1
    requires forall i :: 0 <= i < |parts| ==> sep !in parts[i]
    ensures Split(Join(parts, sep), sep) == parts
  {
    if |parts| == 1 {
      SplitSepFree(parts[0], sep);
    } else {
      var tail := Join(parts[1..], sep);
      SplitJoin(parts[1..], sep);
      SplitPrefix(parts[0], tail, sep);
    }
  }

  /** A separator-free string splits into itself. */
  lemma {:induction false} SplitSepFree(s: string, sep: char)
    requires sep !in s
    ensures Split(s, sep) == [s]
  {
    if s != [] {
      SplitSepFree(s[1..], sep);
      assert s == [s[0]] + s[1..];
    }
  }

  /** A separator-free head in front of a separator becomes the first piece. */
  lemma {:induction false} SplitPrefix(head: string, tail: string, sep: char)
    requires sep !in head
    ensures Split(head + [sep] + tail, sep) == [head] + Split(tail, sep)
  {
    if head == [] {
      assert head + [sep] + tail == [sep] + tail;
      assert ([sep] + tail)[1..] == tail;
    } else {
      var s := head + [sep] + tail;
      assert s[1..] == head[1..] + [sep] + tail;
      SplitPrefix(head[1..], tail, sep);
      assert [s[0]] + head[1..] == head;
    }
  }

  /** Splitting at one separator occurrence: the pieces of the text before it, then the pieces of the text after it. */
  lemma {:induction false} SplitAppend(head: string, tail: string, sep: char)
    ensures Split(head + [sep] + tail, sep) == Split(head, sep) + Split(tail, sep)
  {
    var s := head + [sep] + tail;
    var u := Split(tail, sep);
    if head == [] {
      assert s == [sep] + tail;
      assert s[1..] == tail;
    } else {
      DropFirstSnoc(head, sep, tail);
      SplitAppend(head[1..], tail, sep);
      var h := Split(head[1..], sep);
      var t := Split(s[1..], sep);
      if head[0] == sep {
        ConsAssoc([], h, u);
      } else {
        DropFirstAppend(h, u);
        ConsAssoc([head[0]] + h[0], h[1..], u);
      }
    }
  }

  // ----- str.strip() -----

  /** Python's `s.strip()`: the infix of `s` left once whitespace is taken off both ends. */
  function Strip(s: string): (r: string)
    ensures |r| <= |s|
    ensures r == [] || (!IsSpace(r[0]) && !IsSpace(r[|r| - 1]))
  {
    var l := s[Span(s, Space)..];
    l[..|l| - TrailingSpan(l, Space)]
  }

  /** `strip()` takes whitespace, and only whitespace, off both ends. */
  lemma StripShape(s: string)
    ensures exists i :: StrippedAt(s, Strip(s), i)
    ensures var r := Strip(s); r == [] || (!IsSpace(r[0]) && !IsSpace(r[|r| - 1]))
  {
    var i := Span(s, Space);
    var l := s[i..];
    var t := TrailingSpan(l, Space);
    var r := l[..|l| - t];
    assert r == Strip(s);
    assert r == s[i..i + |r|];
    assert s[i + |r|..] == l[|r|..];
    assert AllIn(s[..i], Space);
    assert AllIn(l[|r|..], Space);
    assert StrippedAt(s, r, i);
    if r != [] {
      assert r[0] == s[i];
      assert r[|r| - 1] == l[|l| - t - 1];
    }
  }

  predicate StrippedAt(s: string, r: string, i: int) {
    0 <= i <= |s| - |r| && s[i..i + |r|] == r && AllIn(s[..i], Space) && AllIn(s[i + |r|..], Space)
  }

  lemma AllInConcat(a: string, b: string, k: Class)
    requires AllIn(a, k) && AllIn(b, k)
    ensures AllIn(a + b, k)
  {
    assert forall i :: 0 <= i < |a + b| ==> (a + b)[i] == if i < |a| then a[i] else b[i - |a|];
  }

  /** A string with non-whitespace at both ends is its own `strip()`. */
  lemma StripTrimmed(s: string)
    requires s != [] && !IsSpace(s[0]) && !IsSpace(s[|s| - 1])
    ensures Strip(s) == s
  {
    StripShape(s);
    var r := Strip(s);
    var i :| StrippedAt(s, r, i);
    AllInEnds(s[..i], Space);
    AllInEnds(s[i + |r|..], Space);
  }

  /** Only whitespace strips to the empty string. */
  lemma StripEmptyIffBlank(s: string)
    ensures Strip(s) == [] <==> AllIn(s, Space)
  {
    StripShape(s);
    var r := Strip(s);
    var i :| StrippedAt(s, r, i);
    if r == [] {
      assert s == s[..i] + s[i + |r|..];
      AllInConcat(s[..i], s[i + |r|..], Space);
    } else {
      assert s[i] == r[0];
    }
  }

  /** The first and last characters of a string inside a class are inside it. */
  lemma AllInEnds(s: string, k: Class)
    requires AllIn(s, k)
    ensures s != [] ==> InClass(s[0], k) && InClass(s[|s| - 1], k)
  {
  }

  // ----- substring containment -----

  /** Python's `needle in hay` for strings. */
  predicate Contains(hay: string, needle: string)
    ensures Contains(hay, needle) ==> |needle| <= |hay|
  {
    needle <= hay || (hay != [] && Contains(hay[1..], needle))
  }

  /** `needle` occurs in `hay` starting at index `i`. */
  predicate OccursAt(hay: string, needle: string, i: int) {
    0 <= i <= |hay| - |needle| && hay[i..i + |needle|] == needle
  }

  /** `Contains` is substring containment: `needle` occurs at some index of `hay`. */
  lemma {:induction false} ContainsIff(hay: string, needle: string)
    ensures Contains(hay, needle) <==> exists i :: OccursAt(hay, needle, i)
  {
    if needle <= hay {
      assert OccursAt(hay, needle, 0);
    } else if hay != [] {
      ContainsIff(hay[1..], needle);
      var tail := hay[1..];
      assert Contains(hay, needle) == Contains(tail, needle);
      if exists i :: OccursAt(hay, needle, i) {
        var i :| OccursAt(hay, needle, i);
        OccursShift(hay, needle, i - 1);
      }
      if exists j :: OccursAt(tail, needle, j) {
        var j :| OccursAt(tail, needle, j);
        OccursShift(hay, needle, j);
      }
    }
  }

  /** An occurrence in the tail is an occurrence one further on in the whole. */
  lemma OccursShift(hay: string, needle: string, j: int)
    requires hay != [] && !(needle <= hay)
    ensures OccursAt(hay[1..], needle, j) <==> OccursAt(hay, needle, j + 1)
  {
    if OccursAt(hay, needle, j + 1) {
      assert j + 1 != 0;
      assert hay[1..][j..j + |needle|] == hay[j + 1..j + 1 + |needle|];
    }
    if OccursAt(hay[1..], needle, j) {
      assert hay[1..][j..j + |needle|] == hay[j + 1..j + 1 + |needle|];
    }
  }

  /** The empty string is contained in every string. */
  lemma ContainsEmpty(hay: string)
    ensures Contains(hay, [])
  {
  }

  // ----- str.upper() -----

  function UpperChar(c: char): char {
    if IsLower(c) then (c as int - 32) as char else c
  }

  /** Python's `s.upper()` on ASCII: lower-case letters become capitals, everything else is kept. */
  function Upper(s: string): (r: string)
    ensures |r| == |s|
    ensures forall i :: 0 <= i < |r| ==> !IsLower(r[i])
    ensures forall i :: 0 <= i < |r| ==> (IsLower(s[i]) ==> r[i] as int == s[i] as int - 32) && (!IsLower(s[i]) ==> r[i] == s[i])
  {
    seq(|s|, i requires 0 <= i < |s| => UpperChar(s[i]))
  }

  // ----- int() of a digit string -----

  function Pow10(n: nat): (p: nat)
    ensures p >= 1
  {
    if n == 0 then 1 else 10 * Pow10(n - 1)
  }

  /** Python's `int(s)` for an ASCII digit string: its decimal value, below 10^|s|. */
  function DecimalValue(s: string): (n: nat)
    requires AllIn(s, Digit)
    ensures n < Pow10(|s|)
  {
    if s == [] then 0
    else
      var init := s[..|s| - 1];
      assert AllIn(init, Digit);
      10 * DecimalValue(init) + (s[|s| - 1] as int - '0' as int)
  }

  /** Powers of ten grow with the exponent. */
  lemma {:induction false} Pow10Monotone(m: nat, n: nat)
    requires m <= n
    ensures Pow10(m) <= Pow10(n)
  {
    if m < n {
      Pow10Monotone(m, n - 1);
    }
  }

  /** A digit string without a leading zero is worth at least 10^(|s|-1). */
  lemma {:induction false} DecimalValueLowerBound(s: string)
    requires AllIn(s, Digit) && s != [] && s[0] != '0'
    ensures DecimalValue(s) >= Pow10(|s| - 1)
  {
    if |s| > 1 {
      var init := s[..|s| - 1];
      DecimalValueLowerBound(init);
    }
  }

  /** Of two digit strings, the shorter is worth less when the longer has no leading zero. */
  lemma DecimalValueShorterSmaller(a: string, b: string)
    requires AllIn(a, Digit) && AllIn(b, Digit) && b != [] && b[0] != '0' && |a| < |b|
    ensures DecimalValue(a) < DecimalValue(b)
  {
    DecimalValueLowerBound(b);
    Pow10Monotone(|a|, |b| - 1);
  }

  // ----- Python string ordering -----

  /** Python's `a <= b` on strings: lexicographic by code point, a proper prefix first. */
  predicate LexLe(a: string, b: string)
    ensures a <= b ==> LexLe(a, b)
  {
    a == [] || (b != [] && (a[0] < b[0] || (a[0] == b[0] && LexLe(a[1..], b[1..]))))
  }

  lemma {:induction false} LexLeTotal(a: string, b: string)
    ensures LexLe(a, b) || LexLe(b, a)
  {
    if a != [] && b != [] && a[0] == b[0] {
      LexLeTotal(a[1..], b[1..]);
    }
  }

  lemma {:induction false} LexLeTransitive(a: string, b: string, c: string)
    requires LexLe(a, b) && LexLe(b, c)
    ensures LexLe(a, c)
  {
    if a != [] && a[0] == b[0] && b[0] == c[0] {
      LexLeTransitive(a[1..], b[1..], c[1..]);
    }
  }

  lemma {:induction false} LexLeAntisymmetric(a: string, b: string)
    requires LexLe(a, b) && LexLe(b, a)
    ensures a == b
  {
    if a != [] {
      LexLeAntisymmetric(a[1..], b[1..]);
      assert a == [a[0]] + a[1..] && b == [b[0]] + b[1..];
    }
  }

  // ----- sequence shapes -----

  /** When one of two appended sequences is empty, the order of appending them does not matter. */
  lemma SwapEmpty<T>(a: seq<T>, b: seq<T>, c: seq<T>)
    requires b == [] || c == []
    ensures (a + b) + c == (a + c) + b
  {
  }

  /** Sequences that end in the same suffix `z` are equal once it is removed. */
  lemma SnocCancel<T>(a: seq<T>, b: seq<T>, z: seq<T>)
    requires a + z == b + z
    ensures a == b
  {
    assert a == (a + z)[..|a|];
    assert b == (b + z)[..|b|];
  }

  lemma LastOfSnoc<T>(s: seq<T>, x: T)
    ensures (s + [x])[|s|] == x && |s + [x]| == |s| + 1
  {
  }

  lemma LastSplit<T>(s: seq<T>)
    requires s != []
    ensures s == s[..|s| - 1] + [s[|s| - 1]]
  {
  }

  /** A non-empty sequence is its first element followed by the rest. */
  lemma HeadSplit<T>(s: seq<T>)
    requires s != []
    ensures [s[0]] + s[1..] == s
  {
  }

  lemma Assoc<T>(a: seq<T>, b: seq<T>, c: seq<T>)
    ensures (a + b) + c == a + (b + c)
  {
  }

  /** The elements of `a + [x]`. */
  lemma SnocIndex<T>(a: seq<T>, x: T)
    ensures |a + [x]| == |a| + 1 && (a + [x])[|a|] == x
    ensures forall i :: 0 <= i < |a| ==> (a + [x])[i] == a[i]
  {
  }

  /** A sequence is its first `k` elements followed by the others. */
  lemma TakeDrop<T>(s: seq<T>, k: int)
    requires 0 <= k <= |s|
    ensures s[..k] + s[k..] == s
  {
  }

  /** One element in front of a concatenation. */
  lemma ConsAssoc<T>(x: T, a: seq<T>, b: seq<T>)
    ensures [x] + (a + b) == ([x] + a) + b
  {
  }

  /** Dropping the first element of a concatenation with a non-empty front. */
  lemma DropFirstAppend<T>(a: seq<T>, b: seq<T>)
    requires a != []
    ensures (a + b)[0] == a[0] && (a + b)[1..] == a[1..] + b
  {
  }

  /** Dropping the first element of `a + [x] + b` with `a` non-empty. */
  lemma DropFirstSnoc<T>(a: seq<T>, x: T, b: seq<T>)
    requires a != []
    ensures (a + [x] + b)[0] == a[0] && (a + [x] + b)[1..] == a[1..] + [x] + b
  {
  }

  /** Appending one element after a concatenation. */
  lemma SnocAssoc<T>(a: seq<T>, b: seq<T>, y: T)
    ensures a + (b + [y]) == (a + b) + [y]
  {
  }

  // ----- searching from the end -----

  /** Index of the last occurrence of `c` in `s`, as `str.rfind` gives it. */
  function LastIndexOf(s: string, c: char): (r: Option<nat>)
    ensures r.Some? ==> r.value < |s| && s[r.value] == c && c !in s[r.value + 1..]
    ensures r.None? <==> c !in s
  {
    if s == [] then None
    else if s[|s| - 1] == c then Some(|s| - 1)
    else
      var r := LastIndexOf(s[..|s| - 1], c);
      assert s == s[..|s| - 1] + [s[|s| - 1]];
      r
  }

  /** An occurrence at or after `j` puts the last occurrence at or after `j`. */
  lemma LastIndexOfAtLeast(s: string, c: char, j: nat)
    requires j <= |s| && c in s[j..]
    ensures LastIndexOf(s, c).Some? && LastIndexOf(s, c).value >= j
  {
    var idx :| 0 <= idx < |s[j..]| && s[j..][idx] == c;
    var k := j + idx;
    assert s[k] == c;
    var r := LastIndexOf(s, c);
    assert forall m :: r.value < m < |s| ==> s[m] in s[r.value + 1..];
  }
}
