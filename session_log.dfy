/**
 * The log kept by `make_logger` in the session state under `_log_lines`:
 * every call of the returned `_log` appends one time-stamped entry and keeps
 * only the most recent `MaxLines` entries, oldest first.
 */
module SessionLog {
  import opened Wrappers

  const MaxLines: nat := 200

  /** Python's `s[-n:]` for `n > 0`: the last `n` items, or all of them. */
  function Tail<T>(s: seq<T>, n: nat): seq<T> {
    if |s| <= n then s else s[|s| - n..]
  }

  /** The text `_log` stores: `"[" + now + "] " + msg`. */
  function Entry(now: string, msg: string): string {
    "[" + now + "] " + msg
  }

  /** The buffer after one `_log` call. */
  function Appended(lines: seq<string>, entry: string): (r: seq<string>)
    ensures |r| <= MaxLines
    ensures |r| == if |lines| < MaxLines then |lines| + 1 else MaxLines
    ensures r[|r| - 1] == entry
    ensures r == (lines + [entry])[|lines| + 1 - |r|..]
  {
    Tail(lines + [entry], MaxLines)
  }

  /** Trimming a prefix early does not change the final trim. */
  lemma TailConcat<T>(s: seq<T>, t: seq<T>, n: nat)
    ensures Tail(Tail(s, n) + t, n) == Tail(s + t, n)
  {
    if |s| > n {
      var d := |s| - n;
      var u := s + t;
      assert Tail(s, n) == s[d..];
      assert u[d..] == s[d..] + t;
      if t != [] {
        assert Tail(s[d..] + t, n) == u[d..][|t|..];
        assert u[d..][|t|..] == u[d + |t|..];
      }
    }
  }

  /** The session state, reduced to its `_log_lines` entry (`None` while absent). */
  class Session {
    var logLines: Option<seq<string>>

    /** A new session holds no log yet. */
    constructor ()
      ensures logLines == None
    {
      logLines := None;
    }

    /** `make_logger`: create the empty log unless the session already has one. */
    method MakeLogger()
      modifies this
      ensures logLines == if old(logLines).None? then Some([]) else old(logLines)
    {
      if logLines.None? {
        logLines := Some([]);
      }
    }

    /** `_log`: append the time-stamped entry and keep the newest `MaxLines`. */
    method Log(now: string, msg: string)
      requires logLines.Some?
      modifies this
      ensures logLines == Some(Appended(old(logLines).value, Entry(now, msg)))
    {
      var lines := logLines.value;
      lines := lines + [Entry(now, msg)];
      logLines := Some(Tail(lines, MaxLines));
    }
  }

  /** The entries `_log` writes for messages logged at the given times. */
  function EntriesOf(stamps: seq<string>, msgs: seq<string>): (r: seq<string>)
    requires |stamps| == |msgs|
    ensures |r| == |msgs|
    ensures forall i :: 0 <= i < |r| ==> r[i] == Entry(stamps[i], msgs[i])
  {
    if msgs == [] then [] else [Entry(stamps[0], msgs[0])] + EntriesOf(stamps[1..], msgs[1..])
  }

  /** Logging the next message extends the trimmed log of the earlier ones. */
  lemma LogStep(stamps: seq<string>, msgs: seq<string>, i: nat)
    requires |stamps| == |msgs| && i < |msgs|
    ensures Appended(Tail(EntriesOf(stamps[..i], msgs[..i]), MaxLines), Entry(stamps[i], msgs[i]))
         == Tail(EntriesOf(stamps[..i + 1], msgs[..i + 1]), MaxLines)
  {
    var before, e := EntriesOf(stamps[..i], msgs[..i]), Entry(stamps[i], msgs[i]);
    var after := EntriesOf(stamps[..i + 1], msgs[..i + 1]);
    assert after == before + [e] by {
      assert |after| == |before + [e]|;
      forall j | 0 <= j < |after| ensures after[j] == (before + [e])[j] {
        if j < i {
          assert after[j] == Entry(stamps[..i + 1][j], msgs[..i + 1][j]);
          assert before[j] == Entry(stamps[..i][j], msgs[..i][j]);
        }
      }
    }
    TailConcat(before, [e], MaxLines);
  }

  /** A fresh session that logs `msgs` at times `stamps` ends up holding the
      newest `MaxLines` entries, in the order they were logged. */
  method LogMany(stamps: seq<string>, msgs: seq<string>) returns (lines: seq<string>)
    requires |stamps| == |msgs|
    ensures |lines| == if |msgs| < MaxLines then |msgs| else MaxLines
    ensures lines == Tail(EntriesOf(stamps, msgs), MaxLines)
  {
    var session := new Session();
    session.MakeLogger();
    var i := 0;
    while i < |msgs|
      invariant 0 <= i <= |msgs|
      invariant session.logLines == Some(Tail(EntriesOf(stamps[..i], msgs[..i]), MaxLines))
    {
      session.Log(stamps[i], msgs[i]);
      LogStep(stamps, msgs, i);
      i := i + 1;
    }
    assert stamps[..i] == stamps && msgs[..i] == msgs;
    lines := session.logLines.value;
  }
}
