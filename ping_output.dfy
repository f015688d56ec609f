/**
 * The parsing of a successful ping's text output in photon/tools/ping.py
 * (lines 71-76), with the three regular expressions written as scanners:
 *
 *   loss: re.search   `(?P<loss>[\d.]+)[%] packet loss\n`
 *   ms:   re.findall  `time=([\d.]*) ms\n`
 *   rtt:  re.search   `(?P<min>[\d.]+)/(?P<avg>[\d.]+)/(?P<max>[\d.]+)/(?P<stddev>[\d.]+) ms`
 *
 * Each pattern is also stated declaratively (`IsLossMatch`, `IsTimeMatch`,
 * `IsRttMatch`: "the text at position i reads ..."), and each scanner is
 * proved to find exactly those matches. Every group is a maximal run of the
 * class `[\d.]` followed by a character outside it, so backtracking never
 * changes a capture: the declarative match at a position is unique.
 * Captured values stay strings; the source never converts them to numbers.
 */
module PingOutput {
  import opened Wrappers

  /** The regex class `[\d.]`. */
  predicate IsNumChar(c: char)
  {
    '0' <= c <= '9' || c == '.'
  }

  predicate AllNum(s: string)
  {
    forall k :: 0 <= k < |s| ==> IsNumChar(s[k])
  }

  /** The length of the longest run of `[\d.]` characters starting at `i`. */
  function RunLen(s: string, i: nat): (n: nat)
    requires i <= |s|
    ensures i + n <= |s|
    ensures forall k :: i <= k < i + n ==> IsNumChar(s[k])
    ensures i + n < |s| ==> !IsNumChar(s[i + n])
    decreases |s| - i
  {
    if i < |s| && IsNumChar(s[i]) then 1 + RunLen(s, i + 1) else 0
  }

  /** A run of the class followed by a character outside it is the longest run there. */
  lemma RunLenExact(s: string, i: nat, c: string, stop: string)
    requires i <= |s| && |stop| > 0 && !IsNumChar(stop[0])
    requires AllNum(c) && c + stop <= s[i..]
    ensures RunLen(s, i) == |c|
  {
    var n := RunLen(s, i);
    assert forall k :: 0 <= k < |c| ==> s[i + k] == c[k] by {
      forall k | 0 <= k < |c| ensures s[i + k] == c[k] {
        assert (c + stop)[k] == s[i..][k];
      }
    }
    assert s[i + |c|] == stop[0] by {
      assert (c + stop)[|c|] == s[i..][|c|];
    }
  }

  /**
   * A group `[\d.]*` followed by the literal `stop`, at position `i`: the
   * capture `c` and then `stop` are what the text reads there.
   */
  predicate FieldAt(s: string, i: nat, c: string, stop: string)
  {
    i <= |s| && AllNum(c) && c + stop <= s[i..]
  }

  /** The scanner for one group: the longest run, if `stop` follows it. */
  function Field(s: string, i: nat, stop: string): (r: Option<string>)
    requires i <= |s| && |stop| > 0 && !IsNumChar(stop[0])
    ensures r.Some? ==> FieldAt(s, i, r.value, stop)
    ensures forall c :: FieldAt(s, i, c, stop) ==> r == Some(c)
  {
    var n := RunLen(s, i);
    if stop <= s[i + n..] then
      assert AllNum(s[i..i + n]);
      assert s[i..i + n] + stop <= s[i..] by {
        forall k | 0 <= k < n + |stop| ensures (s[i..i + n] + stop)[k] == s[i..][k] {
          if k >= n {
            assert stop[k - n] == s[i + n..][k - n];
          }
        }
      }
      assert forall c :: FieldAt(s, i, c, stop) ==> c == s[i..i + n] by {
        forall c | FieldAt(s, i, c, stop) ensures c == s[i..i + n] {
          RunLenExact(s, i, c, stop);
          assert forall k :: 0 <= k < n ==> c[k] == (c + stop)[k] == s[i..][k];
        }
      }
      Some(s[i..i + n])
    else
      assert forall c :: FieldAt(s, i, c, stop) ==> false by {
        forall c | FieldAt(s, i, c, stop) ensures false {
          RunLenExact(s, i, c, stop);
        }
      }
      None
  }

  // ---------------------------------------------------------------------
  // Leftmost search (re.search)
  // ---------------------------------------------------------------------

  datatype Found<T> = Found(at: nat, cap: T)

  /**
   * The first position from `i` on where matcher `m` succeeds, as re.search
   * tries the start positions 0, 1, ..., |s| in turn.
   */
  function Leftmost<T>(s: string, i: nat, m: (string, nat) -> Option<T>): (r: Option<Found<T>>)
    ensures r.Some? ==> i <= r.value.at <= |s| && m(s, r.value.at) == Some(r.value.cap)
    decreases |s| + 1 - i
  {
    if i > |s| then None
    else
      match m(s, i)
      case Some(x) => Some(Found(i, x))
      case None => Leftmost(s, i + 1, m)
  }

  /** No position before the one Leftmost finds (or none at all, if it finds none) matches. */
  lemma {:induction false} LeftmostFirst<T>(s: string, i: nat, m: (string, nat) -> Option<T>)
    ensures var r := Leftmost(s, i, m);
      forall k :: i <= k <= |s| && (r.None? || k < r.value.at) ==> m(s, k).None?
    decreases |s| + 1 - i
  {
    if i <= |s| && m(s, i).None? {
      LeftmostFirst(s, i + 1, m);
    }
  }

  // ---------------------------------------------------------------------
  // Packet loss
  // ---------------------------------------------------------------------

  const LossTail: string := "% packet loss\n"

  /** `(?P<loss>[\d.]+)[%] packet loss\n` matches at `i` with capture `c`. */
  predicate IsLossMatch(s: string, i: nat, c: string)
  {
    |c| > 0 && FieldAt(s, i, c, LossTail)
  }

  function LossAt(s: string, i: nat): (r: Option<string>)
    ensures r.Some? ==> IsLossMatch(s, i, r.value)
    ensures forall c :: IsLossMatch(s, i, c) ==> r == Some(c)
  {
    if i > |s| then None
    else
      var f := Field(s, i, LossTail);
      if f.Some? && f.value != [] then f else None
  }

  /** The `loss` group of the first match, or `None` (line 75 keeps None). */
  function SearchLoss(s: string): (r: Option<string>)
  {
    var f := Leftmost(s, 0, LossAt);
    if f.Some? then Some(f.value.cap) else None
  }

  /**
   * `loss` is `None` exactly when no position matches; otherwise it is a
   * non-empty digits-and-dots string captured at the leftmost match.
   */
  lemma SearchLossSpec(s: string)
    ensures SearchLoss(s).None? <==> forall i: nat, c :: !IsLossMatch(s, i, c)
    ensures SearchLoss(s).Some? ==> |SearchLoss(s).value| > 0 && AllNum(SearchLoss(s).value)
    ensures SearchLoss(s).Some? ==> exists i: nat ::
      IsLossMatch(s, i, SearchLoss(s).value) && forall j: nat, c :: j < i ==> !IsLossMatch(s, j, c)
  {
    var f := Leftmost(s, 0, LossAt);
    LeftmostFirst(s, 0, LossAt);
    if f.Some? {
      var i := f.value.at;
      assert IsLossMatch(s, i, SearchLoss(s).value);
      forall j: nat, c | j < i ensures !IsLossMatch(s, j, c) {
        assert LossAt(s, j).None?;
      }
    } else {
      forall i: nat, c ensures !IsLossMatch(s, i, c) {
        if i <= |s| {
          assert LossAt(s, i).None?;
        }
      }
    }
  }

  // ---------------------------------------------------------------------
  // Per-packet times
  // ---------------------------------------------------------------------

  const TimeHead: string := "time="
  const TimeTail: string := " ms\n"

  /** `time=([\d.]*) ms\n` matches at `i` with capture `c` (possibly empty). */
  predicate IsTimeMatch(s: string, i: nat, c: string)
  {
    i + |TimeHead| <= |s| && TimeHead <= s[i..] && FieldAt(s, i + |TimeHead|, c, TimeTail)
  }

  function TimeAt(s: string, i: nat): (r: Option<string>)
    ensures r.Some? ==> IsTimeMatch(s, i, r.value)
    ensures forall c :: IsTimeMatch(s, i, c) ==> r == Some(c)
  {
    if i + |TimeHead| <= |s| && TimeHead <= s[i..] then Field(s, i + |TimeHead|, TimeTail) else None
  }

  /** Where a time match with capture `c` at `i` ends. */
  function TimeEnd(i: nat, c: string): nat
  {
    i + |TimeHead| + |c| + |TimeTail|
  }

  /**
   * re.findall: scan from `i`; after a match, resume where it ends,
   * otherwise at the next position. Every capture is digits and dots.
   */
  function FindTimes(s: string, i: nat): (r: seq<string>)
    ensures forall c :: c in r ==> AllNum(c)
    decreases |s| - i
  {
    if i >= |s| then []
    else
      match TimeAt(s, i)
      case Some(c) =>
        assert TimeEnd(i, c) <= |s|;
        [c] + FindTimes(s, TimeEnd(i, c))
      case None => FindTimes(s, i + 1)
  }

  /** Reference definition: the capture of every matching position from `i` on, in order. */
  function AllTimes(s: string, i: nat): seq<string>
    decreases |s| - i
  {
    if i >= |s| then []
    else (if TimeAt(s, i).Some? then [TimeAt(s, i).value] else []) + AllTimes(s, i + 1)
  }

  /** No match starts inside another: only a match's first character can be a `t`. */
  lemma TimeMatchesDisjoint(s: string, i: nat, c: string, k: nat)
    requires IsTimeMatch(s, i, c) && i < k < TimeEnd(i, c)
    ensures TimeAt(s, k).None?
  {
    var h := |TimeHead|;
    assert s[i..][..h] == TimeHead;
    assert (c + TimeTail) <= s[i + h..];
    if k < i + h {
      assert s[k] == TimeHead[k - i];
    } else if k < i + h + |c| {
      assert s[k] == (c + TimeTail)[k - i - h];
      assert IsNumChar(c[k - i - h]);
    } else {
      assert s[k] == (c + TimeTail)[k - i - h];
      assert s[k] == TimeTail[k - i - h - |c|];
    }
  }

  lemma {:induction false} AllTimesSkip(s: string, i: nat, e: nat)
    requires i <= e
    requires forall k :: i <= k < e ==> TimeAt(s, k).None?
    ensures AllTimes(s, i) == AllTimes(s, e)
    decreases e - i
  {
    if i < e && i < |s| {
      AllTimesSkip(s, i + 1, e);
    } else if i < e {
      AllTimesSkipEnd(s, e);
    }
  }

  lemma AllTimesSkipEnd(s: string, e: nat)
    requires e >= |s|
    ensures AllTimes(s, e) == []
  {
  }

  /**
   * findall returns the captures of all matches in order of appearance:
   * resuming after each match skips no match.
   */
  lemma {:induction false} FindTimesIsAll(s: string, i: nat)
    ensures FindTimes(s, i) == AllTimes(s, i)
    decreases |s| - i
  {
    if i < |s| {
      match TimeAt(s, i)
      case Some(c) =>
        var e := TimeEnd(i, c);
        forall k | i + 1 <= k < e ensures TimeAt(s, k).None? {
          TimeMatchesDisjoint(s, i, c, k);
        }
        AllTimesSkip(s, i + 1, e);
        FindTimesIsAll(s, e);
      case None =>
        FindTimesIsAll(s, i + 1);
    }
  }

  // ---------------------------------------------------------------------
  // Round-trip summary
  // ---------------------------------------------------------------------

  datatype Rtt = Rtt(min: string, avg: string, max: string, stddev: string)

  /**
   * `<min>/<avg>/<max>/<stddev> ms` matches at `i`: four non-empty runs of
   * `[\d.]`, the first three each followed by `/`, the last by ` ms`.
   */
  predicate IsRttMatch(s: string, i: nat, r: Rtt)
  {
    var j2 := i + |r.min| + 1;
    var j3 := j2 + |r.avg| + 1;
    var j4 := j3 + |r.max| + 1;
    |r.min| > 0 && |r.avg| > 0 && |r.max| > 0 && |r.stddev| > 0 &&
    FieldAt(s, i, r.min, "/") && FieldAt(s, j2, r.avg, "/") &&
    FieldAt(s, j3, r.max, "/") && FieldAt(s, j4, r.stddev, " ms")
  }

  /** A captured group and the position just after the literal that follows it. */
  datatype Piece = Piece(cap: string, next: nat)

  /** A non-empty group at `i` followed by `stop`, and the position after `stop`. */
  function PlusField(s: string, i: nat, stop: string): (r: Option<Piece>)
    requires |stop| > 0 && !IsNumChar(stop[0])
    ensures r.Some? ==> |r.value.cap| > 0 && FieldAt(s, i, r.value.cap, stop)
    ensures r.Some? ==> r.value.next == i + |r.value.cap| + |stop| <= |s|
  {
    if i > |s| then None
    else
      var f := Field(s, i, stop);
      if f.Some? && f.value != [] then Some(Piece(f.value, i + |f.value| + |stop|)) else None
  }

  lemma PlusFieldExact(s: string, i: nat, c: string, stop: string)
    requires |stop| > 0 && !IsNumChar(stop[0])
    requires |c| > 0 && FieldAt(s, i, c, stop)
    ensures PlusField(s, i, stop) == Some(Piece(c, i + |c| + |stop|))
  {
  }

  function RttAt(s: string, i: nat): Option<Rtt>
  {
    var a := PlusField(s, i, "/");
    if a.None? then None
    else
      var b := PlusField(s, a.value.next, "/");
      if b.None? then None
      else
        var c := PlusField(s, b.value.next, "/");
        if c.None? then None
        else
          var d := PlusField(s, c.value.next, " ms");
          if d.None? then None
          else Some(Rtt(a.value.cap, b.value.cap, c.value.cap, d.value.cap))
  }

  /** The four fields of a summary match, each where the previous one ends. */
  lemma RttMatchIntro(s: string, i: nat, x: Rtt, j2: nat, j3: nat, j4: nat)
    requires |x.min| > 0 && |x.avg| > 0 && |x.max| > 0 && |x.stddev| > 0
    requires j2 == i + |x.min| + 1 && j3 == j2 + |x.avg| + 1 && j4 == j3 + |x.max| + 1
    requires FieldAt(s, i, x.min, "/") && FieldAt(s, j2, x.avg, "/")
    requires FieldAt(s, j3, x.max, "/") && FieldAt(s, j4, x.stddev, " ms")
    ensures IsRttMatch(s, i, x)
  {
  }

  /** The summary scanner finds only matches. */
  lemma RttAtSound(s: string, i: nat)
    ensures RttAt(s, i).Some? ==> IsRttMatch(s, i, RttAt(s, i).value)
  {
    var a := PlusField(s, i, "/");
    if a.Some? {
      var b := PlusField(s, a.value.next, "/");
      if b.Some? {
        var c := PlusField(s, b.value.next, "/");
        if c.Some? {
          var d := PlusField(s, c.value.next, " ms");
          if d.Some? {
            var x := Rtt(a.value.cap, b.value.cap, c.value.cap, d.value.cap);
            assert RttAt(s, i) == Some(x);
            RttMatchIntro(s, i, x, a.value.next, b.value.next, c.value.next);
          }
        }
      }
    }
  }

  /** The summary scanner finds every match, and the match at a position is unique. */
  lemma RttAtComplete(s: string, i: nat, x: Rtt)
    requires IsRttMatch(s, i, x)
    ensures RttAt(s, i) == Some(x)
  {
    var j2 := i + |x.min| + 1;
    var j3 := j2 + |x.avg| + 1;
    var j4 := j3 + |x.max| + 1;
    PlusFieldExact(s, i, x.min, "/");
    PlusFieldExact(s, j2, x.avg, "/");
    PlusFieldExact(s, j3, x.max, "/");
    PlusFieldExact(s, j4, x.stddev, " ms");
    var a, b, c, d := PlusField(s, i, "/"), PlusField(s, j2, "/"), PlusField(s, j3, "/"), PlusField(s, j4, " ms");
    assert a.value.next == j2 && b.value.next == j3 && c.value.next == j4;
    assert Rtt(a.value.cap, b.value.cap, c.value.cap, d.value.cap) == x;
  }

  /** `rtt` of the first match, or `None` where the source's `rtt.groupdict()` fails. */
  function SearchRtt(s: string): (r: Option<Rtt>)
  {
    var f := Leftmost(s, 0, RttAt);
    if f.Some? then Some(f.value.cap) else None
  }

  /**
   * The summary is found exactly when some position matches, and then it is
   * the match at the leftmost such position; each field is a non-empty
   * digits-and-dots string.
   */
  lemma SearchRttSpec(s: string)
    ensures SearchRtt(s).None? <==> forall i: nat, x :: !IsRttMatch(s, i, x)
    ensures SearchRtt(s).Some? ==> exists i: nat ::
      IsRttMatch(s, i, SearchRtt(s).value) && forall j: nat, x :: j < i ==> !IsRttMatch(s, j, x)
    ensures SearchRtt(s).Some? ==>
      var r := SearchRtt(s).value;
      |r.min| > 0 && AllNum(r.min) && |r.avg| > 0 && AllNum(r.avg) &&
      |r.max| > 0 && AllNum(r.max) && |r.stddev| > 0 && AllNum(r.stddev)
  {
    var f := Leftmost(s, 0, RttAt);
    LeftmostFirst(s, 0, RttAt);
    if f.Some? {
      var i := f.value.at;
      RttAtSound(s, i);
      forall j: nat, x | j < i ensures !IsRttMatch(s, j, x) {
        if IsRttMatch(s, j, x) {
          RttAtComplete(s, j, x);
        }
      }
    } else {
      forall i: nat, x ensures !IsRttMatch(s, i, x) {
        if IsRttMatch(s, i, x) {
          RttAtComplete(s, i, x);
        }
      }
    }
  }

  // ---------------------------------------------------------------------
  // The whole output
  // ---------------------------------------------------------------------

  /** The fields lines 71-76 add to an `up` host's entry. */
  datatype Details = Details(ms: seq<string>, loss: Option<string>, rtt: Rtt)

  /** Lines 71-76: `None` where the source fails because the summary line is missing. */
  function ParseOutput(out: string): (r: Option<Details>)
  {
    var loss := SearchLoss(out);
    var ms := FindTimes(out, 0);
    var rtt := SearchRtt(out);
    if rtt.None? then None else Some(Details(ms, loss, rtt.value))
  }

  /**
   * Parsing succeeds exactly when the output holds a round-trip summary; then
   * `ms` is every `time=... ms` capture in order, `loss` the first packet-loss
   * capture (or none) and `rtt` the leftmost summary.
   */
  lemma ParseOutputSpec(out: string)
    ensures ParseOutput(out).Some? <==> exists i: nat, x :: IsRttMatch(out, i, x)
    ensures ParseOutput(out).Some? ==>
      var d := ParseOutput(out).value;
      d.ms == AllTimes(out, 0) && (forall c :: c in d.ms ==> AllNum(c)) &&
      d.loss == SearchLoss(out) && d.rtt == SearchRtt(out).value
  {
    SearchRttSpec(out);
    FindTimesIsAll(out, 0);
  }
}
