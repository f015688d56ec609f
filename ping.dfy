/**
 * The Ping tool of photon/tools/ping.py: its configuration, the command line
 * it runs per host, the result table its `probe` setter fills in, and the
 * `status` summary over that table.
 *
 * The thread pool of the source becomes a sequential loop over the hosts
 * (each host writes only its own key), and the external command runner
 * becomes a parameter `run` from command line to return code and output.
 */
module Ping {
  import opened Wrappers
  import opened Structures
  import opened PingOutput

  /** What the command runner reports: `returncode` and `out`. */
  datatype Completed = Completed(returncode: int, out: string)

  /**
   * One host's entry of the result table: `{'up': up}`, plus the `ms`, `loss`
   * and `rtt` fields once line 76 has added them.
   */
  datatype HostResult = HostResult(up: bool, details: Option<Details>)

  /** The errors the source raises out of `probe` and `status`. */
  datatype ProbeError =
    | NotAList                // to_list gave None, so len(hosts) fails
    | EmptyPool               // no hosts: the pool of size 0 is refused
    | NoSummary(host: string) // the output lacks the round-trip line: rtt.groupdict() on None

  datatype StatusError = ZeroDivision

  // ---------------------------------------------------------------------
  // Configuration
  // ---------------------------------------------------------------------

  /** Which ping program to run. */
  function Variant(six: bool): (r: string)
    ensures r == "ping6" <==> six
    ensures r == "ping" <==> !six
  {
    if six then "ping6" else "ping"
  }

  /** The interface option: present only for a non-empty interface name. */
  function InterfaceArg(netIf: Option<string>): (r: string)
    ensures r == "" <==> netIf.None? || netIf.value == ""
    ensures r != "" ==> r == "-I " + netIf.value
  {
    if netIf.Some? && netIf.value != "" then "-I " + netIf.value else ""
  }

  /** The clamp of lines 20 and 22: the larger of `n` and 1. */
  function AtLeastOne(n: int): (r: int)
    ensures r >= 1 && r >= n
    ensures r == n || r == 1
  {
    if n < 1 then 1 else n
  }

  function DigitChar(d: nat): (c: char)
    requires d < 10
    ensures '0' <= c <= '9' && c as int - '0' as int == d
  {
    ('0' as int + d) as char
  }

  /** `%d` of a non-negative integer: its decimal digits. */
  function Decimal(n: nat): (r: string)
    ensures |r| > 0
    ensures forall k :: 0 <= k < |r| ==> '0' <= r[k] <= '9'
    decreases n
  {
    if n < 10 then [DigitChar(n)] else Decimal(n / 10) + [DigitChar(n % 10)]
  }

  /** The number a string of decimal digits denotes. */
  function DecimalValue(s: string): nat
    requires forall k :: 0 <= k < |s| ==> '0' <= s[k] <= '9'
  {
    if s == [] then 0
    else DecimalValue(s[..|s| - 1]) * 10 + (s[|s| - 1] as int - '0' as int)
  }

  /** The digits written for the echo count read back as that count, without a leading zero. */
  lemma {:induction false} DecimalRoundTrip(n: nat)
    ensures DecimalValue(Decimal(n)) == n
    ensures n > 0 ==> Decimal(n)[0] != '0'
    decreases n
  {
    if n >= 10 {
      DecimalRoundTrip(n / 10);
      var r := Decimal(n);
      assert r[..|r| - 1] == Decimal(n / 10);
    }
  }

  /** The fixed parts of every command line. */
  datatype Config = Config(pingc: string, num: nat, netIf: string)
  {
    /** Line 60: `'%s -c %d %s %s' % (pingc, num, net_if, host)`. */
    function Command(host: string): string
    {
      pingc + " -c " + Decimal(num) + " " + netIf + " " + host
    }
  }

  /**
   * A command line starts with the program and `-c`, carries the echo count
   * as a decimal field that reads back as `num`, and ends with the host.
   */
  lemma CommandFields(cfg: Config, host: string)
    ensures var cmd := cfg.Command(host);
      var d := Decimal(cfg.num);
      var at := |cfg.pingc| + 4;
      |cmd| == at + |d| + 1 + |cfg.netIf| + 1 + |host| &&
      cmd[..at] == cfg.pingc + " -c " &&
      cmd[at..at + |d|] == d && DecimalValue(cmd[at..at + |d|]) == cfg.num &&
      cmd[at + |d|] == ' ' &&
      cmd[|cmd| - |host| - 1..] == " " + host
  {
    var cmd := cfg.Command(host);
    var d := Decimal(cfg.num);
    var at := |cfg.pingc| + 4;
    var head := cfg.pingc + " -c ";
    assert cmd == head + (d + (" " + cfg.netIf + " " + host));
    assert cmd[..at] == head;
    assert cmd[at..at + |d|] == d;
    assert cmd[|cmd| - |host| - 1..] == " " + host;
    DecimalRoundTrip(cfg.num);
  }

  /** Line 79: as many workers as hosts, but no more than the configured maximum. */
  function PoolSize(count: nat, maxPool: int): (r: int)
    ensures r <= count && r <= maxPool
    ensures r == count || r == maxPool
  {
    if count <= maxPool then count else maxPool
  }

  /** The host names `probe` works on: to_list(hosts), if it gives strings only. */
  function HostNames(hosts: Value): (r: Option<seq<string>>)
    requires HostsArg(hosts)
    ensures r.None? <==> hosts.Scalar?
    ensures r.Some? ==> |r.value| == |AsList(hosts, false).value|
    ensures r.Some? ==> forall k :: 0 <= k < |r.value| ==> AsList(hosts, false).value[k] == Str(r.value[k])
  {
    var l := AsList(hosts, false);
    if l.None? then None else Some(seq(|l.value|, k requires 0 <= k < |l.value| => l.value[k].s))
  }

  /** The argument `probe` accepts: one that to_list turns into host name strings, or None. */
  predicate HostsArg(hosts: Value)
  {
    var l := AsList(hosts, false);
    l.Some? ==> forall k :: 0 <= k < |l.value| ==> l.value[k].Str?
  }

  // ---------------------------------------------------------------------
  // One host (__single_probe)
  // ---------------------------------------------------------------------

  /** What one host's probe leaves in its entry, and whether it finished without failing. */
  datatype Written = Written(entry: HostResult, ok: bool)

  /**
   * Lines 65-76: `{'up': False}` for a non-zero return code; otherwise
   * `{'up': True}` updated with the parsed fields, where a missing summary
   * line fails after `{'up': True}` was stored.
   */
  function Outcome(c: Completed): (w: Written)
  {
    if c.returncode != 0 then Written(HostResult(false, None), true)
    else
      var d := ParseOutput(c.out);
      Written(HostResult(true, d), d.Some?)
  }

  /**
   * A host is up exactly when its command returned 0. A down host's entry is
   * exactly `{'up': False}`. An up host's probe succeeds exactly when the
   * output holds a round-trip summary, and then carries every `time=` capture
   * in order, the first packet-loss capture or none, and the leftmost summary;
   * otherwise the entry stays `{'up': True}`.
   */
  lemma OutcomeSpec(c: Completed)
    ensures Outcome(c).entry.up <==> c.returncode == 0
    ensures c.returncode != 0 ==> Outcome(c) == Written(HostResult(false, None), true)
    ensures c.returncode == 0 ==>
      (Outcome(c).ok <==> exists i: nat, x :: IsRttMatch(c.out, i, x))
    ensures c.returncode == 0 && !Outcome(c).ok ==> Outcome(c).entry == HostResult(true, None)
    ensures c.returncode == 0 && Outcome(c).ok ==>
      var d := Outcome(c).entry.details;
      d.Some? && d.value.ms == AllTimes(c.out, 0) && (forall t :: t in d.value.ms ==> AllNum(t)) &&
      d.value.loss == SearchLoss(c.out) && d.value.rtt == SearchRtt(c.out).value
  {
    ParseOutputSpec(c.out);
  }

  // ---------------------------------------------------------------------
  // One round of `probe`, as a specification
  // ---------------------------------------------------------------------

  /** The table after a round, and the host whose probe failed, if one did. */
  datatype Round = Round(table: map<string, HostResult>, failed: Option<string>)

  function Reply(cfg: Config, run: string -> Completed, host: string): Written
  {
    Outcome(run(cfg.Command(host)))
  }

  /** The earlier of two failures: `a` if there is one, otherwise `b`. */
  function FirstFailure(a: Option<string>, b: Option<string>): Option<string>
  {
    if a.Some? then a else b
  }

  /**
   * The hosts probed in order, each writing its own key. A failing host does
   * not stop the others (the pool's workers run every task); the round
   * reports the first failing host in list order.
   */
  function ProbeRound(p: map<string, HostResult>, hosts: seq<string>, cfg: Config, run: string -> Completed): Round
    decreases |hosts|
  {
    if hosts == [] then Round(p, None)
    else
      var w := Reply(cfg, run, hosts[0]);
      var rest := ProbeRound(p[hosts[0] := w.entry], hosts[1..], cfg, run);
      Round(rest.table, FirstFailure(if w.ok then None else Some(hosts[0]), rest.failed))
  }

  /** A round from position `i` on: host `i` writes its entry, then the rest of the round runs. */
  lemma ProbeRoundStep(p: map<string, HostResult>, hosts: seq<string>, i: nat, cfg: Config, run: string -> Completed)
    requires i < |hosts|
    ensures var w := Reply(cfg, run, hosts[i]);
      var rest := ProbeRound(p[hosts[i] := w.entry], hosts[i + 1..], cfg, run);
      ProbeRound(p, hosts[i..], cfg, run) == Round(rest.table, FirstFailure(if w.ok then None else Some(hosts[i]), rest.failed))
  {
    assert hosts[i..][0] == hosts[i] && hosts[i..][1..] == hosts[i + 1..];
  }

  /**
   * A round fails exactly when some host's probe fails. Failing or not, it
   * gives every host its own probe's entry, adds no other key and leaves
   * every other host's entry as it was.
   */
  lemma {:induction false} ProbeRoundWrites(p: map<string, HostResult>, hosts: seq<string>, cfg: Config, run: string -> Completed)
    ensures ProbeRound(p, hosts, cfg, run).failed.None? <==> forall h :: h in hosts ==> Reply(cfg, run, h).ok
    ensures var r := ProbeRound(p, hosts, cfg, run);
      r.table.Keys == p.Keys + (set h | h in hosts) &&
      (forall h :: h in hosts ==> r.table[h] == Reply(cfg, run, h).entry) &&
      (forall h :: h in p && h !in hosts ==> r.table[h] == p[h])
    decreases |hosts|
  {
    if hosts != [] {
      var w := Reply(cfg, run, hosts[0]);
      var p' := p[hosts[0] := w.entry];
      ProbeRoundWrites(p', hosts[1..], cfg, run);
      assert forall h :: h in hosts <==> h == hosts[0] || h in hosts[1..];
    }
  }

  /**
   * A failed round names the first host in list order whose probe failed:
   * every host before it was probed without failure, and its entry is
   * `{'up': True}`.
   */
  lemma {:induction false} ProbeRoundFailed(p: map<string, HostResult>, hosts: seq<string>, cfg: Config, run: string -> Completed)
    requires ProbeRound(p, hosts, cfg, run).failed.Some?
    ensures var r := ProbeRound(p, hosts, cfg, run);
      r.failed.value in r.table && r.table[r.failed.value] == HostResult(true, None) &&
      exists j :: 0 <= j < |hosts| && hosts[j] == r.failed.value && !Reply(cfg, run, hosts[j]).ok &&
        forall k :: 0 <= k < j ==> Reply(cfg, run, hosts[k]).ok
    decreases |hosts|
  {
    var w := Reply(cfg, run, hosts[0]);
    var p' := p[hosts[0] := w.entry];
    var r := ProbeRound(p, hosts, cfg, run);
    ProbeRoundWrites(p, hosts, cfg, run);
    if w.ok {
      ProbeRoundFailed(p', hosts[1..], cfg, run);
      var j :| 0 <= j < |hosts[1..]| && hosts[1..][j] == r.failed.value && !Reply(cfg, run, hosts[1..][j]).ok &&
        forall k :: 0 <= k < j ==> Reply(cfg, run, hosts[1..][k]).ok;
      assert hosts[j + 1] == r.failed.value;
      forall k | 0 <= k < j + 1 ensures Reply(cfg, run, hosts[k]).ok {
        if k > 0 {
          assert hosts[k] == hosts[1..][k - 1];
        }
      }
    } else {
      assert hosts[0] == r.failed.value;
    }
    OutcomeFailed(run(cfg.Command(r.failed.value)));
  }

  lemma OutcomeFailed(c: Completed)
    requires !Outcome(c).ok
    ensures Outcome(c).entry == HostResult(true, None)
  {
  }

  /** Which host a round reports as failed does not depend on the table it starts from. */
  lemma {:induction false} ProbeRoundFailedFree(p: map<string, HostResult>, q: map<string, HostResult>, hosts: seq<string>, cfg: Config, run: string -> Completed)
    ensures ProbeRound(p, hosts, cfg, run).failed == ProbeRound(q, hosts, cfg, run).failed
    decreases |hosts|
  {
    if hosts != [] {
      var w := Reply(cfg, run, hosts[0]);
      ProbeRoundFailedFree(p[hosts[0] := w.entry], q[hosts[0] := w.entry], hosts[1..], cfg, run);
    }
  }

  /**
   * The order of the hosts and repetitions among them do not change the
   * resulting table, nor whether the round fails. The half about repetitions
   * rests on `run` giving the same reply to the same command line: the source
   * runs ping once per listed occurrence and keeps the last write.
   */
  lemma ProbeRoundOrderFree(p: map<string, HostResult>, a: seq<string>, b: seq<string>, cfg: Config, run: string -> Completed)
    requires forall h :: h in a <==> h in b
    ensures ProbeRound(p, a, cfg, run).failed.None? <==> ProbeRound(p, b, cfg, run).failed.None?
    ensures ProbeRound(p, a, cfg, run).table == ProbeRound(p, b, cfg, run).table
  {
    ProbeRoundWrites(p, a, cfg, run);
    ProbeRoundWrites(p, b, cfg, run);
  }

  /**
   * Probing the same hosts again, with replies `run'` that may differ from the
   * first round's, overwrites their entries with the second round's: the table
   * keeps its keys (the first round's keys and hosts), every host holds its
   * second reply's entry and every other entry stays as the first round left it.
   */
  lemma ProbeRoundAgain(p: map<string, HostResult>, hosts: seq<string>, cfg: Config,
                        run: string -> Completed, run': string -> Completed)
    ensures var t := ProbeRound(p, hosts, cfg, run).table;
      var t2 := ProbeRound(t, hosts, cfg, run').table;
      t.Keys == p.Keys + (set h | h in hosts) && t2.Keys == t.Keys &&
      (forall h :: h in hosts ==> t2[h] == Reply(cfg, run', h).entry) &&
      (forall h :: h in t && h !in hosts ==> t2[h] == t[h])
  {
    var t := ProbeRound(p, hosts, cfg, run).table;
    ProbeRoundWrites(p, hosts, cfg, run);
    ProbeRoundWrites(t, hosts, cfg, run');
  }

  /**
   * With the same replies a second time, a round leaves the table unchanged
   * and reports the same failure; the table has one key per old key or host.
   */
  lemma ProbeRoundRepeat(p: map<string, HostResult>, hosts: seq<string>, cfg: Config, run: string -> Completed)
    ensures var r := ProbeRound(p, hosts, cfg, run);
      ProbeRound(r.table, hosts, cfg, run) == r && |r.table| == |p.Keys + (set h | h in hosts)|
  {
    var r := ProbeRound(p, hosts, cfg, run);
    var t := r.table;
    ProbeRoundWrites(p, hosts, cfg, run);
    ProbeRoundAgain(p, hosts, cfg, run, run);
    ProbeRoundFailedFree(p, t, hosts, cfg, run);
    var t' := ProbeRound(t, hosts, cfg, run).table;
    assert forall h :: h in t' ==> t'[h] == t[h];
    assert t' == t;
  }

  // ---------------------------------------------------------------------
  // status
  // ---------------------------------------------------------------------

  /** The `status` dictionary: counts and the up ratio. */
  datatype Summary = Summary(num: nat, up: nat, down: int, ratio: real)

  function UpHosts(p: map<string, HostResult>): set<string>
  {
    set h | h in p && p[h].up
  }

  function DownHosts(p: map<string, HostResult>): set<string>
  {
    set h | h in p && !p[h].up
  }

  /** Lines 104-108; an empty table is the source's division by zero. */
  function Summarise(p: map<string, HostResult>): (r: Result<Summary, StatusError>)
    ensures r.Err? <==> |p| == 0
  {
    if |p| == 0 then Err(ZeroDivision)
    else
      var num, up := |p|, |UpHosts(p)|;
      Ok(Summary(num, up, num - up, up as real / num as real))
  }

  lemma UpDownPartition(p: map<string, HostResult>)
    ensures UpHosts(p) + DownHosts(p) == p.Keys
    ensures UpHosts(p) * DownHosts(p) == {}
    ensures |UpHosts(p)| + |DownHosts(p)| == |p|
  {
    assert UpHosts(p) + DownHosts(p) == p.Keys;
  }

  /**
   * `num` counts the table's hosts, `up` those that answered and `down` those
   * that did not, so `0 <= up <= num`; the ratio lies in [0, 1], is 1 exactly
   * when every host is up and 0 exactly when none is.
   */
  lemma SummariseSpec(p: map<string, HostResult>)
    requires |p| > 0
    ensures var s := Summarise(p).value;
      s.num == |p| && s.up == |UpHosts(p)| && s.down == |DownHosts(p)| &&
      0 <= s.up <= s.num && s.down == s.num - s.up &&
      0.0 <= s.ratio <= 1.0 &&
      (s.ratio == 1.0 <==> DownHosts(p) == {}) &&
      (s.ratio == 0.0 <==> UpHosts(p) == {})
  {
    UpDownPartition(p);
    RatioBounds(|UpHosts(p)|, |p|);
  }

  /** The ratio of `up` out of `num`: a fraction that is 1 only for all and 0 only for none. */
  lemma RatioBounds(up: nat, num: nat)
    requires 0 < num && up <= num
    ensures 0.0 <= up as real / num as real <= 1.0
    ensures up as real / num as real == 1.0 <==> up == num
    ensures up as real / num as real == 0.0 <==> up == 0
  {
    var r := up as real / num as real;
    assert r * num as real == up as real;
  }

  // ---------------------------------------------------------------------
  // The tool
  // ---------------------------------------------------------------------

  class Ping {
    const pingc: string
    const netIf: string
    const num: nat
    const maxPoolSize: nat
    /** The result table, keyed by host. */
    var p: map<string, HostResult>

    predicate Valid()
    {
      num >= 1 && maxPoolSize >= 1 && (pingc == "ping" || pingc == "ping6")
    }

    function Cfg(): Config
    {
      Config(pingc, num, netIf)
    }

    /** Lines 18-24: the program variant, the interface option, the clamped counts and an empty table. */
    constructor (six: bool, netIf: Option<string>, num: int, maxPoolSize: int)
      ensures Valid()
      ensures this.pingc == Variant(six) && this.netIf == InterfaceArg(netIf)
      ensures this.num == AtLeastOne(num) && this.maxPoolSize == AtLeastOne(maxPoolSize)
      ensures p == map[]
    {
      this.pingc := Variant(six);
      this.netIf := InterfaceArg(netIf);
      this.num := AtLeastOne(num);
      this.maxPoolSize := AtLeastOne(maxPoolSize);
      p := map[];
    }

    /** `__single_probe`: run the command for `host` and write the host's entry. */
    method SingleProbe(host: string, run: string -> Completed) returns (ok: bool)
      modifies this
      ensures p == old(p)[host := Reply(Cfg(), run, host).entry]
      ensures ok == Reply(Cfg(), run, host).ok
    {
      var reply := run(Cfg().Command(host));
      ghost var w := Outcome(reply);
      assert w == Reply(Cfg(), run, host);
      var up := reply.returncode == 0;
      p := p[host := HostResult(up, None)];
      ok := true;
      if up {
        var d := ParseOutput(reply.out);
        assert w == Written(HostResult(true, d), d.Some?);
        if d.None? {
          return false;
        }
        p := p[host := HostResult(true, d)];
      } else {
        assert w == Written(HostResult(false, None), true);
      }
    }

    /**
     * The `probe` setter: normalise the hosts with to_list, size the pool,
     * then probe every host in turn and report the first failing one.
     */
    method Probe(hosts: Value, run: string -> Completed) returns (r: Result<(), ProbeError>)
      requires Valid() && HostsArg(hosts)
      modifies this
      ensures HostNames(hosts).None? ==> r == Err(NotAList) && p == old(p)
      ensures HostNames(hosts) == Some([]) ==> r == Err(EmptyPool) && p == old(p)
      ensures HostNames(hosts).Some? && HostNames(hosts).value != [] ==>
        var round := ProbeRound(old(p), HostNames(hosts).value, Cfg(), run);
        p == round.table &&
        (r.Ok? <==> round.failed.None?) &&
        (round.failed.Some? ==> r == Err(NoSummary(round.failed.value)))
    {
      var list := ToList(hosts, false);
      if list.None? {
        return Err(NotAList);
      }
      var names := HostNames(hosts).value;
      var poolSize := PoolSize(|names|, maxPoolSize);
      if poolSize < 1 {
        return Err(EmptyPool);
      }
      ghost var round := ProbeRound(old(p), names, Cfg(), run);
      var failed: Option<string> := None;
      var i: nat := 0;
      while i < |names|
        invariant 0 <= i <= |names|
        invariant ProbeRound(p, names[i..], Cfg(), run).table == round.table
        invariant FirstFailure(failed, ProbeRound(p, names[i..], Cfg(), run).failed) == round.failed
      {
        ghost var w := Reply(Cfg(), run, names[i]);
        ghost var rest := ProbeRound(p[names[i] := w.entry], names[i + 1..], Cfg(), run);
        ProbeRoundStep(p, names, i, Cfg(), run);
        var ok := SingleProbe(names[i], run);
        if !ok && failed.None? {
          failed := Some(names[i]);
        }
        i := i + 1;
      }
      if failed.Some? {
        return Err(NoSummary(failed.value));
      }
      return Ok(());
    }

    /** The `status` property. */
    function Status(): (r: Result<Summary, StatusError>)
      reads this
      ensures r.Err? <==> p == map[]
    {
      Summarise(p)
    }
  }
}
