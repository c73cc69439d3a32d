/**
  `parse_ss_output` (backend/main.py:88-196): the text printed by `ss -tulpn`
  becomes a list of port records. Each line is stripped; blank lines and the
  `Netid` header are skipped; a line of the attributed shape gives a record
  with its pid, process name and owner; a line of the plain shape gives a
  record without them, but only when its local address has no `[`; every
  other line is skipped. A record whose key `(port, protocol, pid)` was
  already seen is dropped, so the first line with a key wins.

  The owner lookup `get_port_owner` (backend/main.py:65-86) runs `ps`; here it
  is the parameter `owner`, any function from a pid to an optional user name.
 */
module SsParser {
  import opened Wrappers
  import opened Text
  import opened SsLine

  /** One dictionary of the result (backend/main.py:143-152 and 180-189). */
  datatype PortRecord = PortRecord(
    port: string,
    protocol: string,
    status: string,
    localAddress: string,
    remoteAddress: string,
    pid: Option<string>,
    process: Option<string>,
    user: Option<string>)

  /** The deduplication key `(port, protocol, pid)`; a pid-less record has the key `(port, protocol, None)`. */
  datatype PortKey = PortKey(port: string, protocol: string, pid: Option<string>)

  function KeyOf(r: PortRecord): PortKey {
    PortKey(r.port, r.protocol, r.pid)
  }

  function KeysOf(recs: seq<PortRecord>): set<PortKey> {
    set r | r in recs :: KeyOf(r)
  }

  predicate UniqueKeys(recs: seq<PortRecord>) {
    forall i, j :: 0 <= i < j < |recs| ==> KeyOf(recs[i]) != KeyOf(recs[j])
  }

  // ----- one line -----

  /** The record of a line the attributed shape matches (backend/main.py:119-152). */
  function AttributedRecord(line: string, owner: string -> Option<string>): (r: PortRecord)
    requires MatchAttributed(line).Some?
    ensures r.pid.Some? && r.process.Some? && r.user == owner(r.pid.value) && Run(r.pid.value, Digit)
    ensures MatchFields(line).Some? && r.localAddress == MatchFields(line).value.Local()
    ensures r.remoteAddress == MatchFields(line).value.Remote()
  {
    var a := MatchAttributed(line).value;
    MatchFieldsLocal(line);
    var f := a.fields;
    var pid := a.users.owner.pid;
    PortRecord(ExtractPort(f.Local()), Upper(f.protocol), Upper(f.State()), f.Local(), f.Remote(),
      Some(pid), Some(a.users.owner.process), owner(pid))
  }

  /** The record of a line only the plain shape matches (backend/main.py:161-189). */
  function PlainRecord(line: string): (r: PortRecord)
    requires MatchFields(line).Some?
    ensures r.pid.None? && r.process.None? && r.user.None?
    ensures r.localAddress == MatchFields(line).value.Local() && r.remoteAddress == MatchFields(line).value.Remote()
  {
    var f := MatchFields(line).value;
    MatchFieldsLocal(line);
    PortRecord(ExtractPort(f.Local()), Upper(f.protocol), Upper(f.State()), f.Local(), f.Remote(), None, None, None)
  }

  /**
    The record the loop body builds for one line of output, before deduplication,
    or `None` when it builds none (backend/main.py:111-194).
   */
  function LineRecord(raw: string, owner: string -> Option<string>): (r: Option<PortRecord>)
    ensures r.Some? ==> Strip(raw) != [] && MatchFields(Strip(raw)).Some?
    ensures r.Some? ==> (r.value.pid.Some? <==> MatchAttributed(Strip(raw)).Some?)
  {
    var line := Strip(raw);
    if line == [] || "Netid" <= line then None
    else if MatchAttributed(line).Some? then Some(AttributedRecord(line, owner))
    else if MatchFields(line).Some? then
      if '[' in MatchFields(line).value.Local() then None else Some(PlainRecord(line))
    else None
  }

  /** The loop body's attributed branch. */
  lemma AttributedStep(raw: string, owner: string -> Option<string>)
    requires Strip(raw) != [] && !("Netid" <= Strip(raw)) && MatchAttributed(Strip(raw)).Some?
    ensures LineRecord(raw, owner) == Some(AttributedRecord(Strip(raw), owner))
  {
  }

  /** The loop body's plain branch. */
  lemma PlainStep(raw: string, owner: string -> Option<string>)
    requires Strip(raw) != [] && !("Netid" <= Strip(raw))
    requires MatchAttributed(Strip(raw)).None? && MatchFields(Strip(raw)).Some?
    ensures LineRecord(raw, owner) ==
      if '[' in MatchFields(Strip(raw)).value.Local() then None else Some(PlainRecord(Strip(raw)))
  {
  }

  /**
    A line that the attributed pattern matches, by any way `a` of cutting it, gives a
    record: the protocol and state of `a` upper-cased, the addresses of `a`, the port of
    the local address, and the pid, process name and `owner(pid)` of a match of the
    `users:` clause whose process name is at least as long as that of `a` and whose pid
    is a maximal digit run.
   */
  lemma LineAttributed(raw: string, owner: string -> Option<string>, a: Attributed)
    requires AttributedShape(a) && Glue(a.fields) == Strip(raw)
    ensures LineRecord(raw, owner).Some?
    ensures var r := LineRecord(raw, owner).value;
      && WellFormed(r, owner) && r.pid.Some?
      && r.protocol == Upper(a.fields.protocol) && r.status == Upper(a.fields.State())
      && r.localAddress == a.fields.Local() && r.remoteAddress == a.fields.Remote()
      && |r.process.value| >= |a.users.owner.process|
    ensures var r := LineRecord(raw, owner).value;
      exists gap, tail, after ::
        && AttributedShape(Attributed(a.fields, Users(gap, Owner(r.process.value, r.pid.value, tail, after))))
        && (tail == [] || !IsDigit(tail[0]))
  {
    var line := Strip(raw);
    assert line[0] == a.fields.protocol[0];
    MatchAttributedComplete(a);
    MatchAttributedSound(line);
    AttributedRecordWellFormed(line, owner);
    var b := MatchAttributed(line).value;
    var o := b.users.owner;
    assert LineRecord(raw, owner) == Some(AttributedRecord(line, owner));
    assert Attributed(a.fields, Users(b.users.gap, Owner(o.process, o.pid, o.tail, o.after))) == b;
  }

  /**
    A line that the plain pattern matches as `f`, greedily, and that the attributed
    pattern matches in no way, gives the record of the captures of `f` without pid,
    process or user, or no record at all when the local address of `f` contains `[`.
   */
  lemma LinePlain(raw: string, owner: string -> Option<string>, f: Fields)
    requires FieldsShape(f) && RemoteGreedy(f) && Glue(f) == Strip(raw)
    requires forall a :: AttributedShape(a) ==> Glue(a.fields) != Strip(raw)
    ensures LineRecord(raw, owner) ==
      if '[' in f.Local() then None
      else Some(PortRecord(ExtractPort(f.Local()), Upper(f.protocol), Upper(f.State()), f.Local(), f.Remote(), None, None, None))
  {
    var line := Strip(raw);
    assert line[0] == f.protocol[0];
    MatchFieldsExact(f);
    if MatchAttributed(line).Some? {
      MatchAttributedSound(line);
      assert false;
    }
  }

  /**
    What every record satisfies: protocol `TCP` or `UDP`, a non-empty upper-cased
    status, addresses of the address class, the port taken from the local address;
    a record with a pid carries an all-digit pid, the process name and the owner of
    that pid; a record without one has no process and no user, and a local address
    without `[`.
   */
  predicate WellFormed(r: PortRecord, owner: string -> Option<string>) {
    && (r.protocol == "TCP" || r.protocol == "UDP")
    && r.status != [] && (forall i :: 0 <= i < |r.status| ==> !IsLower(r.status[i]))
    && AllIn(r.localAddress, Addr) && IsRemote(r.remoteAddress)
    && r.port == ExtractPort(r.localAddress)
    && (r.pid.Some? ==> Run(r.pid.value, Digit) && r.process.Some? && r.user == owner(r.pid.value))
    && (r.pid.None? ==> r.process.None? && r.user.None? && '[' !in r.localAddress)
  }

  /** The protocol and status of a plain match, upper-cased. */
  lemma UpperFields(f: Fields)
    requires FieldsShape(f)
    ensures Upper(f.protocol) == "TCP" || Upper(f.protocol) == "UDP"
    ensures Upper(f.State()) != [] && forall i :: 0 <= i < |Upper(f.State())| ==> !IsLower(Upper(f.State())[i])
  {
    assert Run(f.State(), PlainClasses[1]);
    assert f.protocol == "tcp" ==> Upper(f.protocol) == "TCP";
    assert f.protocol == "udp" ==> Upper(f.protocol) == "UDP";
  }

  lemma AttributedRecordWellFormed(line: string, owner: string -> Option<string>)
    requires MatchAttributed(line).Some?
    ensures WellFormed(AttributedRecord(line, owner), owner)
  {
    MatchFieldsSound(line);
    MatchAttributedSound(line);
    UpperFields(MatchFields(line).value);
  }

  lemma PlainRecordWellFormed(line: string)
    requires MatchFields(line).Some? && '[' !in MatchFields(line).value.Local()
    ensures forall owner: string -> Option<string> :: WellFormed(PlainRecord(line), owner)
  {
    MatchFieldsSound(line);
    UpperFields(MatchFields(line).value);
  }

  lemma LineRecordWellFormed(raw: string, owner: string -> Option<string>)
    requires LineRecord(raw, owner).Some?
    ensures WellFormed(LineRecord(raw, owner).value, owner)
  {
    var line := Strip(raw);
    if MatchAttributed(line).Some? {
      AttributedRecordWellFormed(line, owner);
    } else {
      PlainRecordWellFormed(line);
    }
  }

  /**
    Exactly which lines give no record: blank lines, lines starting with `Netid`
    after stripping, lines neither shape matches, and lines only the plain shape
    matches whose local address contains `[`.
   */
  lemma LineRecordNone(raw: string, owner: string -> Option<string>)
    ensures var line := Strip(raw);
      LineRecord(raw, owner).None? <==>
        || AllIn(raw, Space)
        || "Netid" <= line
        || MatchFields(line).None?
        || (MatchAttributed(line).None? && '[' in MatchFields(line).value.Local())
  {
    StripEmptyIffBlank(raw);
  }

  // ----- all lines -----

  function Listed(r: Option<PortRecord>): seq<PortRecord> {
    match r
    case Some(x) => [x]
    case None => []
  }

  /** The records that `rec` gives for the lines, in order. */
  function Collect(lines: seq<string>, rec: string -> Option<PortRecord>): seq<PortRecord> {
    if lines == [] then []
    else Collect(lines[..|lines| - 1], rec) + Listed(rec(lines[|lines| - 1]))
  }

  /** The loop body as a function of the line, for a given owner lookup. */
  function Records(owner: string -> Option<string>): string -> Option<PortRecord> {
    raw => LineRecord(raw, owner)
  }

  lemma {:induction false} CollectAppend(a: seq<string>, b: seq<string>, rec: string -> Option<PortRecord>)
    ensures Collect(a + b, rec) == Collect(a, rec) + Collect(b, rec)
  {
    if b != [] {
      var b' := b[..|b| - 1];
      assert (a + b)[..|a + b| - 1] == a + b';
      assert (a + b)[|a + b| - 1] == b[|b| - 1];
      CollectAppend(a, b', rec);
    } else {
      assert a + b == a;
    }
  }

  lemma CollectStep(lines: seq<string>, n: nat, rec: string -> Option<PortRecord>)
    requires n < |lines|
    ensures Collect(lines[..n + 1], rec) == Collect(lines[..n], rec) + Listed(rec(lines[n]))
  {
    assert lines[..n + 1][..n] == lines[..n];
  }

  /** Keeps the first record of each key, in order: what the `seen_ports` test does. */
  function Dedup(recs: seq<PortRecord>): (r: seq<PortRecord>)
    ensures UniqueKeys(r)
    ensures KeysOf(r) == KeysOf(recs)
    ensures forall x :: x in r ==> x in recs
  {
    if recs == [] then []
    else
      var init := recs[..|recs| - 1];
      var x := recs[|recs| - 1];
      var d := Dedup(init);
      assert recs == init + [x];
      assert KeysOf(recs) == KeysOf(init) + {KeyOf(x)};
      if KeyOf(x) in KeysOf(d) then d
      else
        assert KeysOf(d + [x]) == KeysOf(d) + {KeyOf(x)};
        d + [x]
  }

  /** Index `i` holds the first record of its key. */
  predicate IsFirstOfKey(recs: seq<PortRecord>, i: int)
    requires 0 <= i < |recs|
  {
    forall j :: 0 <= j < i ==> KeyOf(recs[j]) != KeyOf(recs[i])
  }

  /** Independent reference: the records among the first `n` that are the first of their key, in order. */
  function FirstsOf(recs: seq<PortRecord>, n: nat): seq<PortRecord>
    requires n <= |recs|
  {
    if n == 0 then []
    else FirstsOf(recs, n - 1) + (if IsFirstOfKey(recs, n - 1) then [recs[n - 1]] else [])
  }

  /** Deduplication keeps exactly the first record of every key, in their original order: the first occurrence wins. */
  lemma {:induction false} DedupIsFirsts(recs: seq<PortRecord>, n: nat)
    requires n <= |recs|
    ensures Dedup(recs[..n]) == FirstsOf(recs, n)
  {
    if n > 0 {
      DedupIsFirsts(recs, n - 1);
      DedupPrefix(recs, n);
      FirstOfKeyIff(recs, n - 1);
    }
  }

  /** Deduplicating one record more of a prefix. */
  lemma DedupPrefix(recs: seq<PortRecord>, n: nat)
    requires 0 < n <= |recs|
    ensures Dedup(recs[..n]) ==
      if KeyOf(recs[n - 1]) in KeysOf(recs[..n - 1]) then Dedup(recs[..n - 1]) else Dedup(recs[..n - 1]) + [recs[n - 1]]
  {
    var prefix := recs[..n];
    assert prefix[..n - 1] == recs[..n - 1];
  }

  /** A record is the first of its key exactly when no earlier record has that key. */
  lemma FirstOfKeyIff(recs: seq<PortRecord>, i: nat)
    requires i < |recs|
    ensures IsFirstOfKey(recs, i) <==> KeyOf(recs[i]) !in KeysOf(recs[..i])
  {
    if !IsFirstOfKey(recs, i) {
      var j :| 0 <= j < i && KeyOf(recs[j]) == KeyOf(recs[i]);
      assert recs[..i][j] == recs[j];
    }
  }

  /** `parse_ss_output(output)` as a value. */
  function Parse(output: string, owner: string -> Option<string>): (ports: seq<PortRecord>)
    ensures UniqueKeys(ports)
  {
    Dedup(Collect(Split(output, '\n'), Records(owner)))
  }

  lemma KeysOfSnoc(recs: seq<PortRecord>, x: PortRecord)
    ensures KeysOf(recs + [x]) == KeysOf(recs) + {KeyOf(x)}
  {
  }

  /** Deduplicating one more candidate: it is appended exactly when its key is new. */
  lemma DedupSnoc(recs: seq<PortRecord>, r: Option<PortRecord>)
    ensures Dedup(recs + Listed(r)) ==
      if r.Some? && KeyOf(r.value) !in KeysOf(Dedup(recs)) then Dedup(recs) + [r.value] else Dedup(recs)
  {
    if r.Some? {
      assert (recs + [r.value])[..|recs|] == recs;
    } else {
      assert recs + [] == recs;
    }
  }

  /** `parse_ss_output` (backend/main.py:88-196). */
  method ParseSsOutput(output: string, owner: string -> Option<string>) returns (ports: seq<PortRecord>)
    ensures ports == Parse(output, owner)
  {
    ports := [];
    var seen: set<PortKey> := {};
    var lines := Split(output, '\n');
    for n := 0 to |lines|
      invariant ports == Dedup(Collect(lines[..n], Records(owner)))
      invariant seen == KeysOf(ports)
    {
      CollectStep(lines, n, Records(owner));
      DedupSnoc(Collect(lines[..n], Records(owner)), LineRecord(lines[n], owner));
      var line := Strip(lines[n]);
      if line == [] {
        continue;
      }
      if "Netid" <= line {
        continue;
      }
      var m := MatchAttributed(line);
      if m.Some? {
        var a := m.value;
        MatchFieldsLocal(line);
        var protocol := Upper(a.fields.protocol);
        var status := Upper(a.fields.State());
        var localAddr := a.fields.Local();
        var pid := a.users.owner.pid;
        var port := ExtractPort(localAddr);
        var info := PortRecord(port, protocol, status, localAddr, a.fields.Remote(),
          Some(pid), Some(a.users.owner.process), owner(pid));
        AttributedStep(lines[n], owner);
        assert info == AttributedRecord(line, owner);
        var key := PortKey(port, protocol, Some(pid));
        if key !in seen {
          seen := seen + {key};
          KeysOfSnoc(ports, info);
          ports := ports + [info];
        }
      } else {
        var mp := MatchFields(line);
        if mp.Some? {
          var f := mp.value;
          MatchFieldsLocal(line);
          PlainStep(lines[n], owner);
          var protocol := Upper(f.protocol);
          var status := Upper(f.State());
          var localAddr := f.Local();
          // A bracketed local address gets its port computed, but no record is built.
          var port := ExtractPort(localAddr);
          if '[' !in localAddr {
            var info := PortRecord(port, protocol, status, localAddr, f.Remote(), None, None, None);
            assert info == PlainRecord(line);
            var key := PortKey(port, protocol, None);
            if key !in seen {
              seen := seen + {key};
              KeysOfSnoc(ports, info);
              ports := ports + [info];
            }
          }
        }
      }
    }
    assert lines[..|lines|] == lines;
  }

  // ----- properties of the whole parse -----

  lemma {:induction false} CollectWellFormed(lines: seq<string>, owner: string -> Option<string>)
    ensures forall r :: r in Collect(lines, Records(owner)) ==> WellFormed(r, owner)
  {
    if lines != [] {
      CollectWellFormed(lines[..|lines| - 1], owner);
      if LineRecord(lines[|lines| - 1], owner).Some? {
        LineRecordWellFormed(lines[|lines| - 1], owner);
      }
    }
  }

  /** No two records share a key, and every record is well formed. */
  lemma ParseWellFormed(output: string, owner: string -> Option<string>)
    ensures UniqueKeys(Parse(output, owner))
    ensures forall r :: r in Parse(output, owner) ==> WellFormed(r, owner)
  {
    CollectWellFormed(Split(output, '\n'), owner);
  }

  /**
    A line that gives no record (blank, the header, or one neither shape accepts)
    can be removed from the output without changing the result: the parse skips it
    and goes on with the next line.
   */
  lemma SkippedLineIgnored(head: string, noise: string, tail: string, owner: string -> Option<string>)
    requires '\n' !in noise && LineRecord(noise, owner).None?
    ensures Parse(head + "\n" + noise + "\n" + tail, owner) == Parse(head + "\n" + tail, owner)
  {
    var h := Split(head, '\n');
    var t := Split(tail, '\n');
    calc {
      Split(head + "\n" + noise + "\n" + tail, '\n');
      { assert head + "\n" + noise + "\n" + tail == head + ['\n'] + (noise + ['\n'] + tail);
        SplitAppend(head, noise + ['\n'] + tail, '\n'); }
      h + Split(noise + ['\n'] + tail, '\n');
      { SplitPrefix(noise, tail, '\n'); }
      h + ([noise] + t);
    }
    calc {
      Split(head + "\n" + tail, '\n');
      { assert head + "\n" + tail == head + ['\n'] + tail;
        SplitAppend(head, tail, '\n'); }
      h + t;
    }
    DropSkipped(h, noise, t, Records(owner));
  }

  /** Dropping a line that gives no record leaves the records alone. */
  lemma DropSkipped(h: seq<string>, noise: string, t: seq<string>, rec: string -> Option<PortRecord>)
    requires rec(noise).None?
    ensures Collect(h + ([noise] + t), rec) == Collect(h + t, rec)
  {
    assert Collect([noise], rec) == [] by {
      assert [noise][..0] == [];
    }
    calc {
      Collect(h + ([noise] + t), rec);
      { CollectAppend(h, [noise] + t, rec); }
      Collect(h, rec) + Collect([noise] + t, rec);
      { CollectAppend([noise], t, rec); }
      Collect(h, rec) + ([] + Collect(t, rec));
      { assert [] + Collect(t, rec) == Collect(t, rec); }
      Collect(h, rec) + Collect(t, rec);
      { CollectAppend(h, t, rec); }
      Collect(h + t, rec);
    }
  }
}
