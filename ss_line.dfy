/**
  The two line shapes that `parse_ss_output` tries on each stripped line of
  `ss -tulpn` output (backend/main.py:96-103), with the semantics of
  Python's `re.match`: anchored at the start of the line but not at its
  end, quantifiers greedy. Most adjacent pieces use disjoint character
  classes, so their captures are forced. Three captures are fixed by
  greediness instead: the trailing remote address of the plain shape, which
  takes a following `*`; the process name `(.*)`, the longest that lets the
  rest match; and the pid `(\d+)`, which `.*` follows and which greedy
  matching makes the maximal digit run. The matchers below are greedy
  tokenizers, and the lemmas show they accept exactly the lines the
  patterns accept, with those greedy choices.

  Also here: the port taken from the local address
  (backend/main.py:129-138 and 169-177).
 */
module SsLine {
  import opened Wrappers
  import opened Text

  // ----- the plain shape: (tcp|udp)\s+(\w+)\s+\d+\s+\d+\s+([\d.:%\[\]]+)\s+([\d.:%\[\]]+\*?) -----

  /** The classes of the runs that follow the protocol in the plain shape, the remote address last. */
  const PlainClasses: seq<Class> := [Space, Word, Space, Digit, Space, Digit, Space, Addr, Space, Addr]

  /**
    One way of cutting a line along the plain shape: the protocol, the ten runs that
    follow it (in order: gap, state, gap, Recv-Q, gap, Send-Q, gap, local address, gap,
    remote address), and the text after the remote address.
   */
  datatype Fields = Fields(protocol: string, runs: seq<string>, rest: string) {
    function State(): string requires |runs| == 10 { runs[1] }
    function Local(): string requires |runs| == 10 { runs[7] }
    function Remote(): string requires |runs| == 10 { runs[9] }
  }

  /** The line that a cut stands for. */
  function Glue(f: Fields): string {
    f.protocol + (Concat(f.runs) + f.rest)
  }

  /** What `[\d.:%\[\]]+\*?` matches. */
  predicate IsRemote(s: string) {
    Run(s, Addr) || (|s| >= 2 && s[|s| - 1] == '*' && Run(s[..|s| - 1], Addr))
  }

  /** The cut is a match of the plain shape: every piece is what its part of the pattern can match. */
  predicate FieldsShape(f: Fields) {
    && (f.protocol == "tcp" || f.protocol == "udp")
    && |f.runs| == 10
    && (forall i :: 0 <= i < 9 ==> Run(f.runs[i], PlainClasses[i]))
    && IsRemote(f.runs[9])
  }

  /** The remote capture is as long as greedy matching makes it: it stops only where neither an address character nor the `*` can follow. */
  predicate RemoteGreedy(f: Fields)
    requires |f.runs| == 10
  {
    f.rest != [] && f.Remote() != [] && f.Remote()[|f.Remote()| - 1] != '*' ==> !IsAddr(f.rest[0]) && f.rest[0] != '*'
  }

  /**
    The cut that greedy matching makes of a line, given the runs `t` that greedy
    tokenizing captures after the protocol: the remote address takes a following `*`.
   */
  function CutOf(line: string, t: Tokens): Fields
    requires |line| >= 3 && |t.taken| == 10
  {
    var star := if t.rest != [] && t.rest[0] == '*' then 1 else 0;
    Fields(line[..3], t.taken[..9] + [t.taken[9] + t.rest[..star]], t.rest[star..])
  }

  /** `pattern_no_pid.match(line)` (backend/main.py:102, 161): the captures of the greedy match, or `None`. */
  function MatchFields(line: string): (r: Option<Fields>)
    ensures r.Some? ==> |line| >= 3 && r.value.protocol == line[..3] && |r.value.runs| == 10
  {
    if |line| < 3 || (line[..3] != "tcp" && line[..3] != "udp") then None
    else
      var t :- Tokenize(line[3..], PlainClasses);
      Some(CutOf(line, t))
  }

  /** Widening the last of a list of runs by `u` and dropping `u` from the remainder leaves the concatenation alone. */
  lemma ConcatWidenLast(p: seq<string>, u: string, v: string)
    requires p != []
    ensures Concat(p[..|p| - 1] + [p[|p| - 1] + u]) + v == Concat(p) + (u + v)
  {
    var n := |p| - 1;
    ConcatSnoc(p[..n], p[n] + u);
    ConcatSnoc(p[..n], p[n]);
    LastSplit(p);
    var c := Concat(p[..n]);
    calc {
      Concat(p[..n] + [p[n] + u]) + v;
      (c + (p[n] + u)) + v;
      { AppendRegroup(c, p[n], u, v); }
      (c + p[n]) + (u + v);
      Concat(p) + (u + v);
    }
  }

  lemma AppendRegroup(a: string, b: string, c: string, d: string)
    ensures (a + (b + c)) + d == (a + b) + (c + d)
  {
  }

  /** The cut built from greedy runs that glue back into the line is a greedy match of the plain shape. */
  lemma CutOfSound(line: string, t: Tokens)
    requires |line| >= 3 && (line[..3] == "tcp" || line[..3] == "udp")
    requires |t.taken| == 10 && Concat(t.taken) + t.rest == line[3..]
    requires forall i :: 0 <= i < 10 ==> Run(t.taken[i], PlainClasses[i])
    requires t.rest == [] || !IsAddr(t.rest[0])
    ensures FieldsShape(CutOf(line, t)) && RemoteGreedy(CutOf(line, t)) && Glue(CutOf(line, t)) == line
  {
    var f := CutOf(line, t);
    var star := if t.rest != [] && t.rest[0] == '*' then 1 else 0;
    assert forall i :: 0 <= i < 9 ==> f.runs[i] == t.taken[i];
    assert Run(t.taken[9], PlainClasses[9]);
    assert star == 1 ==> f.Remote()[..|f.Remote()| - 1] == t.taken[9];
    ConcatWidenLast(t.taken, t.rest[..star], t.rest[star..]);
    assert t.rest[..star] + t.rest[star..] == t.rest;
    assert line == line[..3] + line[3..];
  }

  /** Whatever `MatchFields` returns is a greedy match of the plain shape that glues back into the line. */
  lemma MatchFieldsSound(line: string)
    requires MatchFields(line).Some?
    ensures FieldsShape(MatchFields(line).value) && RemoteGreedy(MatchFields(line).value)
    ensures Glue(MatchFields(line).value) == line
  {
    var t := Tokenize(line[3..], PlainClasses).value;
    TokenizeGlues(line[3..], PlainClasses);
    TokenizeRuns(line[3..], PlainClasses);
    CutOfSound(line, t);
  }

  /** The local address `MatchFields` captures is a run of address characters, as `ExtractPort` expects. */
  lemma MatchFieldsLocal(line: string)
    requires MatchFields(line).Some?
    ensures Run(MatchFields(line).value.Local(), Addr)
  {
    MatchFieldsSound(line);
    assert Run(MatchFields(line).value.runs[7], PlainClasses[7]);
  }

  /** The remote address without its `*`, and what follows it with the `*` put back. */
  function RemoteRun(f: Fields): string
    requires |f.runs| == 10
  {
    var remote := f.Remote();
    if remote != [] && remote[|remote| - 1] == '*' then remote[..|remote| - 1] else remote
  }

  function StarRest(f: Fields): string
    requires |f.runs| == 10
  {
    var remote := f.Remote();
    if remote != [] && remote[|remote| - 1] == '*' then "*" + f.rest else f.rest
  }

  /** The runs of a cut with the `*` taken off the remote address. */
  function Unstarred(f: Fields): seq<string>
    requires |f.runs| == 10
  {
    f.runs[..9] + [RemoteRun(f)]
  }

  /** The class at index `i` of the plain shape shares no character with the class after it. */
  lemma PlainClassesAlternate(i: nat)
    requires i < 9
    ensures forall c :: InClass(c, PlainClasses[i + 1]) ==> !InClass(c, PlainClasses[i])
  {
  }

  /** A cut of the plain shape is a list of abutting class runs, the last one the remote address without its `*`. */
  lemma FieldsRuns(f: Fields)
    requires FieldsShape(f)
    ensures |Unstarred(f)| == |PlainClasses| && Abutting(Unstarred(f), PlainClasses)
    ensures Glue(f) == f.protocol + (Concat(Unstarred(f)) + StarRest(f))
    ensures (forall i :: 0 <= i < 9 ==> Unstarred(f)[i] == f.runs[i]) && Unstarred(f)[9] + StarRest(f) == f.Remote() + f.rest
  {
    var runs := Unstarred(f);
    assert forall i :: 0 <= i < 9 ==> runs[i] == f.runs[i];
    forall i | 0 <= i < 9
      ensures runs[i + 1] != [] && !InClass(runs[i + 1][0], PlainClasses[i])
    {
      PlainClassesAlternate(i);
    }
    assert f.runs == f.runs[..9] + [f.Remote()];
    ConcatSnoc(f.runs[..9], f.Remote());
    ConcatSnoc(f.runs[..9], RemoteRun(f));
    assert RemoteRun(f) + StarRest(f) == f.Remote() + f.rest;
  }

  /** A greedy cut of the plain shape is the one `MatchFields` finds. */
  lemma MatchFieldsExact(f: Fields)
    requires FieldsShape(f) && RemoteGreedy(f)
    ensures MatchFields(Glue(f)) == Some(f)
  {
    FieldsRuns(f);
    var runs := Unstarred(f);
    var line := Glue(f);
    assert line[..3] == f.protocol && line[3..] == Concat(runs) + StarRest(f);
    TokenizeExact(runs, StarRest(f), PlainClasses);
    CutOfUnstarred(f);
  }

  /** Cutting the line again from the unstarred runs gives back the cut. */
  lemma CutOfUnstarred(f: Fields)
    requires FieldsShape(f) && RemoteGreedy(f)
    ensures CutOf(Glue(f), Tokens(Unstarred(f), StarRest(f))) == f
  {
    var g := CutOf(Glue(f), Tokens(Unstarred(f), StarRest(f)));
    var remote := f.Remote();
    if remote[|remote| - 1] == '*' {
      assert StarRest(f)[..1] == "*" && StarRest(f)[1..] == f.rest;
      assert RemoteRun(f) + "*" == remote;
    } else {
      assert StarRest(f) == f.rest;
    }
    assert g.Remote() == remote && g.rest == f.rest;
    assert g.runs[..9] == f.runs[..9];
    assert g.runs == g.runs[..9] + [g.Remote()];
    assert f.runs == f.runs[..9] + [remote];
  }

  /** The captures of a cut built from tokens: the first nine runs, and the remote address with what follows it. */
  lemma CutOfRuns(line: string, t: Tokens)
    requires |line| >= 3 && |t.taken| == 10
    ensures forall i :: 0 <= i < 9 ==> CutOf(line, t).runs[i] == t.taken[i]
    ensures CutOf(line, t).Remote() + CutOf(line, t).rest == t.taken[9] + t.rest
  {
    var star := if t.rest != [] && t.rest[0] == '*' then 1 else 0;
    SnocIndex(t.taken[..9], t.taken[9] + t.rest[..star]);
    TakeDrop(t.rest, star);
    Assoc(t.taken[9], t.rest[..star], t.rest[star..]);
  }

  /**
    Whenever the plain shape can match a line in some way, `MatchFields` succeeds on it,
    with the same protocol and the same runs up to the remote address: a line fails the
    pattern only when no cut exists.
   */
  lemma MatchFieldsComplete(f: Fields)
    requires FieldsShape(f)
    ensures MatchFields(Glue(f)).Some?
    ensures var g := MatchFields(Glue(f)).value;
      && g.protocol == f.protocol
      && (forall i :: 0 <= i < 9 ==> g.runs[i] == f.runs[i])
      && g.Remote() + g.rest == f.Remote() + f.rest
  {
    FieldsRuns(f);
    var runs := Unstarred(f);
    var line := Glue(f);
    assert line[..3] == f.protocol && line[3..] == Concat(runs) + StarRest(f);
    TokenizeComplete(runs, StarRest(f), PlainClasses);
    CutOfRuns(line, Tokenize(line[3..], PlainClasses).value);
  }

  // ----- the attributed shape: the plain shape, then \s+users:\(\(\"(.*)\",pid=(\d+).*\) -----

  const UsersOpen: string := "users:((\""
  const PidMarker: string := "\",pid="

  /** A match of `(.*)\",pid=(\d+).*\)`: the process name, the pid, the text up to the closing `)`, and what follows. */
  datatype Owner = Owner(process: string, pid: string, tail: string, after: string)

  function OwnerText(o: Owner): string {
    o.process + (PidMarker + (o.pid + (o.tail + (")" + o.after))))
  }

  /** The pieces are what their parts of the pattern can match; `.` does not match a newline. */
  predicate OwnerShape(o: Owner) {
    AllIn(o.process, Dot) && Run(o.pid, Digit) && AllIn(o.tail, Dot)
  }

  /**
    At index `i` of the newline-free text `u` the process-name group can end:
    `",pid=` follows, then a digit, and after that digit run a `)` occurs.
   */
  predicate PidMarkerAt(u: string, i: int) {
    && 0 <= i && i + |PidMarker| < |u|
    && u[i..i + |PidMarker|] == PidMarker
    && IsDigit(u[i + |PidMarker|])
    && ')' in u[i + |PidMarker| + Span(u[i + |PidMarker|..], Digit)..]
  }

  /** The indices of `u` where the process-name group can end. */
  function Markers(u: string): set<nat> {
    set i: nat | i < |u| && PidMarkerAt(u, i)
  }

  /** The largest member of `marks` below `n`, searching from the right as backtracking does. */
  function LastBelow(marks: set<nat>, n: nat): (r: Option<nat>)
    ensures r.Some? ==> r.value < n && r.value in marks
  {
    if n == 0 then None
    else if n - 1 in marks then Some(n - 1)
    else LastBelow(marks, n - 1)
  }

  /** `LastBelow` finds a member at or above any member below `n`. */
  lemma {:induction false} LastBelowIsLast(marks: set<nat>, n: nat, j: nat)
    requires j < n && j in marks
    ensures LastBelow(marks, n).Some? && LastBelow(marks, n).value >= j
  {
    if n - 1 !in marks {
      LastBelowIsLast(marks, n - 1, j);
    }
  }

  /** The last index below `n` where the greedy `(.*)` can stop. */
  function LastPidMarker(u: string, n: nat): (r: Option<nat>)
    requires n <= |u|
    ensures r.Some? ==> r.value < n && PidMarkerAt(u, r.value)
  {
    LastBelow(Markers(u), n)
  }

  /** `LastPidMarker` finds the last marker below `n`, and finds none only when there is none. */
  lemma LastPidMarkerIsLast(u: string, n: nat, j: nat)
    requires j < n <= |u| && PidMarkerAt(u, j)
    ensures LastPidMarker(u, n).Some? && LastPidMarker(u, n).value >= j
  {
    LastBelowIsLast(Markers(u), n, j);
  }

  /** The newline-free prefix of `t`: the text `.` can range over. */
  function Line(t: string): string {
    t[..Span(t, Dot)]
  }

  /** Where the pid digit run that starts after the marker at `i` ends. */
  function PidEnd(u: string, i: nat): (e: nat)
    requires PidMarkerAt(u, i)
    ensures i + |PidMarker| < e <= |u|
  {
    i + |PidMarker| + Span(u[i + |PidMarker|..], Digit)
  }

  /** The last `)` of `u`, where `.*\)` stops; the marker at `i` puts one at or after the end of the pid. */
  function CloseAt(u: string, i: nat): (c: nat)
    requires PidMarkerAt(u, i)
    ensures PidEnd(u, i) <= c < |u| && u[c] == ')'
  {
    LastIndexOfAtLeast(u, ')', PidEnd(u, i));
    LastIndexOf(u, ')').value
  }

  /** The owner part cut at the marker index `i` of the newline-free prefix of `t`; the `.*\)` runs to the last `)` of that prefix. */
  function OwnerCut(t: string, i: nat): Owner
    requires PidMarkerAt(Line(t), i)
  {
    var u := Line(t);
    var pidEnd := PidEnd(u, i);
    var close := CloseAt(u, i);
    Owner(u[..i], u[i + |PidMarker|..pidEnd], u[pidEnd..close], t[close + 1..])
  }

  /** `(.*)\",pid=(\d+).*\)` matched at the front of `t`, greedily. */
  function MatchOwner(t: string): (r: Option<Owner>)
    ensures r.Some? ==> OwnerShape(r.value) && (r.value.tail == [] || !IsDigit(r.value.tail[0]))
  {
    var i :- LastPidMarker(Line(t), |Line(t)|);
    OwnerCutShape(t, i);
    Some(OwnerCut(t, i))
  }

  /** Five consecutive slices of a text, the fourth ending just before index `c`, put back together. */
  lemma SliceChain(t: string, i: nat, a: nat, b: nat, c: nat)
    requires i <= a <= b <= c < |t|
    ensures t == t[..i] + (t[i..a] + (t[a..b] + (t[b..c] + ([t[c]] + t[c + 1..]))))
  {
    assert t[c..] == [t[c]] + t[c + 1..];
    assert t[b..] == t[b..c] + t[c..];
    assert t[a..] == t[a..b] + t[b..];
    assert t[i..] == t[i..a] + t[a..];
    assert t == t[..i] + t[i..];
  }

  /** The cut at a marker spells out the text. */
  lemma OwnerCutText(t: string, i: nat)
    requires PidMarkerAt(Line(t), i)
    ensures OwnerText(OwnerCut(t, i)) == t
  {
    var u := Line(t);
    var close := CloseAt(u, i);
    assert OwnerCut(t, i) == Owner(u[..i], u[i + |PidMarker|..PidEnd(u, i)], u[PidEnd(u, i)..close], t[close + 1..]);
    assert u == t[..|u|];
    PrefixSlices(t, |u|, i, i + |PidMarker|);
    PiecesText(t, |u|, i, PidEnd(u, i), close);
  }

  /** Cutting the first `n` characters of `t` at a marker, a pid end and a `)` spells out `t`. */
  lemma PiecesText(t: string, n: nat, i: nat, pidEnd: nat, close: nat)
    requires i + |PidMarker| <= pidEnd <= close < n <= |t|
    requires t[i..i + |PidMarker|] == PidMarker && t[close] == ')'
    ensures OwnerText(Owner(t[..n][..i], t[..n][i + |PidMarker|..pidEnd], t[..n][pidEnd..close], t[close + 1..])) == t
  {
    var digitsAt := i + |PidMarker|;
    PrefixSlices(t, n, 0, i);
    PrefixSlices(t, n, digitsAt, pidEnd);
    PrefixSlices(t, n, pidEnd, close);
    assert t[..n][..i] == t[..n][0..i];
    assert t[..i] == t[0..i];
    SliceChain(t, i, digitsAt, pidEnd, close);
  }

  /** Slices of a prefix of a text are slices of the text. */
  lemma PrefixSlices(t: string, n: nat, a: nat, b: nat)
    requires a <= b <= n <= |t|
    ensures t[..n][a..b] == t[a..b]
  {
  }

  /** The cut at a marker is a match of the owner part whose pid no further digit could lengthen. */
  lemma OwnerCutShape(t: string, i: nat)
    requires PidMarkerAt(Line(t), i)
    ensures OwnerShape(OwnerCut(t, i))
    ensures OwnerCut(t, i).tail == [] || !IsDigit(OwnerCut(t, i).tail[0])
  {
    var u := Line(t);
    var close := CloseAt(u, i);
    PiecesOwnerShape(u, t[close + 1..], i, close);
  }

  /** The owner part cut from a newline-free text at a marker and a `)` after the pid. */
  lemma PiecesOwnerShape(u: string, after: string, i: nat, close: nat)
    requires AllIn(u, Dot) && PidMarkerAt(u, i) && PidEnd(u, i) <= close < |u|
    ensures var o := Owner(u[..i], u[i + |PidMarker|..PidEnd(u, i)], u[PidEnd(u, i)..close], after);
      OwnerShape(o) && (o.tail == [] || !IsDigit(o.tail[0]))
  {
    PiecesShape(u, i, i + |PidMarker|, close);
  }

  /** Slicing a newline-free text at a digit run and a later index gives pieces of the owner part's classes. */
  lemma PiecesShape(u: string, i: nat, digitsAt: nat, close: nat)
    requires AllIn(u, Dot) && i <= digitsAt < |u| && IsDigit(u[digitsAt])
    requires digitsAt + Span(u[digitsAt..], Digit) <= close < |u|
    ensures var pidEnd := digitsAt + Span(u[digitsAt..], Digit);
      && AllIn(u[..i], Dot) && Run(u[digitsAt..pidEnd], Digit) && AllIn(u[pidEnd..close], Dot)
      && (pidEnd == close || !IsDigit(u[pidEnd..close][0]))
  {
    var n := Span(u[digitsAt..], Digit);
    assert u[digitsAt..][0] == u[digitsAt];
    assert forall j :: 0 <= j < n ==> u[digitsAt..digitsAt + n][j] == u[digitsAt..][j];
    assert digitsAt + n < close ==> u[digitsAt + n..close][0] == u[digitsAt..][n];
  }

  /** The cut at a marker is a match of the owner part that spells out the text, with the greedy pid. */
  lemma OwnerCutSound(t: string, i: nat)
    requires PidMarkerAt(Line(t), i)
    ensures OwnerShape(OwnerCut(t, i)) && OwnerText(OwnerCut(t, i)) == t
    ensures OwnerCut(t, i).tail == [] || !IsDigit(OwnerCut(t, i).tail[0])
  {
    OwnerCutText(t, i);
    OwnerCutShape(t, i);
  }

  /** Whatever `MatchOwner` returns is a match of the owner part with the greedy pid that spells out the text. */
  lemma MatchOwnerSound(t: string)
    requires MatchOwner(t).Some?
    ensures OwnerShape(MatchOwner(t).value) && OwnerText(MatchOwner(t).value) == t
    ensures MatchOwner(t).value.tail == [] || !IsDigit(MatchOwner(t).value.tail[0])
  {
    OwnerCutSound(t, LastPidMarker(Line(t), |Line(t)|).value);
  }

  /**
    Whenever `(.*)\",pid=(\d+).*\)` can match at the front of a text, `MatchOwner`
    succeeds on it with a process name at least as long: the name it returns is the
    longest any match allows, as greedy `(.*)` makes it.
   */
  lemma MatchOwnerComplete(o: Owner)
    requires OwnerShape(o)
    ensures MatchOwner(OwnerText(o)).Some?
    ensures |MatchOwner(OwnerText(o)).value.process| >= |o.process|
  {
    var t := OwnerText(o);
    var u := Line(t);
    OwnerMarker(o);
    LastPidMarkerIsLast(u, |u|, |o.process|);
    var r := LastPidMarker(u, |u|).value;
    assert MatchOwner(t) == Some(OwnerCut(t, r));
  }

  /** The slices of a text put together from five pieces, the fifth a single character. */
  lemma ChainSlices(a: string, b: string, c: string, d: string, x: char, e: string)
    ensures var t := a + (b + (c + (d + ([x] + e))));
      var i := |a|; var j := i + |b|; var k := j + |c|; var l := k + |d|;
      && |t| > l && t[..i] == a && t[i..j] == b && t[j..k] == c && t[k..l] == d && t[l] == x
  {
  }

  /** The text of an owner match has no newline before its closing `)`, so `.` ranges over all of it. */
  lemma OwnerLineLong(o: Owner)
    requires OwnerShape(o)
    ensures |Line(OwnerText(o))| > |o.process| + |PidMarker| + |o.pid| + |o.tail|
  {
    ChainSlices(o.process, PidMarker, o.pid, o.tail, ')', o.after);
  }

  /** In the text of an owner match, the greedy process name can end where the given one does. */
  lemma OwnerMarker(o: Owner)
    requires OwnerShape(o)
    ensures PidMarkerAt(Line(OwnerText(o)), |o.process|)
  {
    var t := OwnerText(o);
    var u := Line(t);
    var i := |o.process|;
    var j := i + |PidMarker|;
    var k := j + |o.pid|;
    var l := k + |o.tail|;
    ChainSlices(o.process, PidMarker, o.pid, o.tail, ')', o.after);
    OwnerLineLong(o);
    PrefixSlices(t, |u|, i, j);
    PrefixSlices(t, |u|, j, k);
    assert u[j] == o.pid[0];
    var n := Span(u[j..], Digit);
    assert u[j..][l - j] == u[l] == ')';
    assert n <= l - j;
    assert u[j + n..][l - j - n] == ')';
  }

  /** A match of `\s+users:\(\(\"` followed by the owner part. */
  datatype Users = Users(gap: string, owner: Owner)

  function UsersText(us: Users): string {
    us.gap + (UsersOpen + OwnerText(us.owner))
  }

  /** `\s+users:\(\(\"(.*)\",pid=(\d+).*\)` matched at the front of `s`. */
  function MatchUsers(s: string): (r: Option<Users>)
    ensures r.Some? ==> Run(r.value.gap, Space) && OwnerShape(r.value.owner)
  {
    var g :- Token(s, Space);
    if !(UsersOpen <= g.rest) then None
    else
      var o :- MatchOwner(g.rest[|UsersOpen|..]);
      Some(Users(g.taken, o))
  }

  lemma MatchUsersSound(s: string)
    requires MatchUsers(s).Some?
    ensures var us := MatchUsers(s).value; Run(us.gap, Space) && OwnerShape(us.owner) && UsersText(us) == s
    ensures var us := MatchUsers(s).value; us.owner.tail == [] || !IsDigit(us.owner.tail[0])
  {
    var g := Token(s, Space).value;
    var o := MatchOwner(g.rest[|UsersOpen|..]).value;
    MatchOwnerSound(g.rest[|UsersOpen|..]);
    UsersGlue(s, g, o);
  }

  lemma UsersGlue(s: string, g: Cut, o: Owner)
    requires s == g.taken + g.rest && UsersOpen <= g.rest && OwnerText(o) == g.rest[|UsersOpen|..]
    ensures UsersText(Users(g.taken, o)) == s
  {
    assert g.rest == UsersOpen + g.rest[|UsersOpen|..] by {
      assert g.rest[..|UsersOpen|] == UsersOpen;
    }
  }

  lemma MatchUsersComplete(us: Users)
    requires Run(us.gap, Space) && OwnerShape(us.owner)
    ensures MatchUsers(UsersText(us)).Some?
    ensures |MatchUsers(UsersText(us)).value.owner.process| >= |us.owner.process|
  {
    var after := UsersOpen + OwnerText(us.owner);
    TokenOfRun(us.gap, after, Space);
    assert after[|UsersOpen|..] == OwnerText(us.owner);
    MatchOwnerComplete(us.owner);
  }

  /** One way of matching the attributed shape: the plain cut, whose rest is the `users:` clause. */
  datatype Attributed = Attributed(fields: Fields, users: Users)

  predicate AttributedShape(a: Attributed) {
    && FieldsShape(a.fields) && a.fields.rest == UsersText(a.users)
    && Run(a.users.gap, Space) && OwnerShape(a.users.owner)
  }

  /**
    `pattern.match(line)` (backend/main.py:97, 119): the captures of the greedy match, or
    `None`. The attributed shape is the plain shape followed by the `users:` clause, and
    every run before the clause is forced, so its plain captures are those of `MatchFields`.
   */
  function MatchAttributed(line: string): (r: Option<Attributed>)
    ensures r.Some? ==> MatchFields(line) == Some(r.value.fields)
  {
    var f :- MatchFields(line);
    var us :- MatchUsers(f.rest);
    Some(Attributed(f, us))
  }

  /** Whatever `MatchAttributed` returns is a match of the attributed shape, with the greedy pid, that glues back into the line. */
  lemma MatchAttributedSound(line: string)
    requires MatchAttributed(line).Some?
    ensures var a := MatchAttributed(line).value; AttributedShape(a) && Glue(a.fields) == line
    ensures var a := MatchAttributed(line).value; a.users.owner.tail == [] || !IsDigit(a.users.owner.tail[0])
  {
    MatchFieldsSound(line);
    MatchUsersSound(MatchFields(line).value.rest);
  }

  /**
    Whenever the attributed shape can match a line in some way, `MatchAttributed` succeeds
    on it, with the same plain captures and a process name at least as long: the name
    `MatchAttributed` returns is the longest any match allows, as greedy `(.*)` makes it.
   */
  lemma MatchAttributedComplete(a: Attributed)
    requires AttributedShape(a)
    ensures MatchAttributed(Glue(a.fields)).Some?
    ensures var b := MatchAttributed(Glue(a.fields)).value;
      b.fields == a.fields && |b.users.owner.process| >= |a.users.owner.process|
  {
    assert a.fields.rest[0] == a.users.gap[0];
    MatchFieldsExact(a.fields);
    MatchUsersComplete(a.users);
  }

  // ----- the port of a local address -----

  /** `addr` ends in `:` followed by the non-empty digit run `port`: what `re.search(r':(\d+)$', addr)` finds. */
  predicate EndsWithColonPort(addr: string, port: string) {
    Run(port, Digit) && |port| < |addr| && addr[|addr| - |port| - 1] == ':' && addr[|addr| - |port|..] == port
  }

  /** A colon-and-digits ending is the whole trailing digit run, so there is at most one. */
  lemma ColonPortIsTrailingDigits(addr: string, port: string)
    requires EndsWithColonPort(addr, port)
    ensures |port| == TrailingSpan(addr, Digit)
  {
    var n := TrailingSpan(addr, Digit);
    assert forall j :: 0 <= j < |port| ==> addr[|addr| - |port| + j] == port[j];
  }

  /** `re.search(r':(\d+)$', addr)`: the digits after a final `:`, or `"0"` when the address does not end that way. */
  function ColonDigitsPort(addr: string): (port: string)
    ensures EndsWithColonPort(addr, port) || (port == "0" && forall p :: !EndsWithColonPort(addr, p))
  {
    var d := TrailingSpan(addr, Digit);
    assert forall p :: EndsWithColonPort(addr, p) ==> |p| == d by {
      forall p | EndsWithColonPort(addr, p) {
        ColonPortIsTrailingDigits(addr, p);
      }
    }
    if 0 < d < |addr| && addr[|addr| - d - 1] == ':' then addr[|addr| - d..] else "0"
  }

  /** `addr.split(':')[-1]`: the text after the last `:`, or the whole address when it has no `:`. */
  function LastColonField(addr: string): (port: string)
    ensures ':' !in port && |port| <= |addr| && addr[|addr| - |port|..] == port
    ensures |port| < |addr| ==> addr[|addr| - |port| - 1] == ':'
  {
    match LastIndexOf(addr, ':')
    case None => addr
    case Some(k) => addr[k + 1..]
  }

  /** The port of a local address: with a `[` in it, its colon-and-digits ending, otherwise its last `:`-separated field. */
  function ExtractPort(local: string): (port: string)
    requires AllIn(local, Addr)
    ensures '[' in local ==> EndsWithColonPort(local, port) || (port == "0" && forall p :: !EndsWithColonPort(local, p))
    ensures '[' !in local ==> ':' !in port && |port| <= |local| && local[|local| - |port|..] == port
    ensures '[' !in local && |port| < |local| ==> local[|local| - |port| - 1] == ':'
  {
    if '[' in local then ColonDigitsPort(local) else LastColonField(local)
  }

  /** An IPv6 listener: the digits after the final `:`. */
  lemma ExtractPortBracketed()
    ensures ExtractPort("[::]:80") == "80"
  {
    var v6 := "[::]:80";
    assert v6[|v6| - 2..] == "80" && v6[|v6| - 3] == ':';
    assert EndsWithColonPort(v6, "80");
  }

  /** A bracketed address without a port gives `"0"`. */
  lemma ExtractPortBracketedNoPort()
    ensures ExtractPort("[::1]") == "0"
  {
    var bare := "[::1]";
    assert !IsDigit(bare[|bare| - 1]);
    assert TrailingSpan(bare, Digit) == 0;
  }

  /** An IPv4 listener: the text after the last `:`. */
  lemma ExtractPortPlain()
    ensures ExtractPort("0.0.0.0:22") == "22"
  {
    var v4 := "0.0.0.0:22";
    assert v4[7] == ':' && v4[8..] == "22";
    assert ':' !in v4[8..];
  }
}
