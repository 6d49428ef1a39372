/**
 * The retry policy of `urlopen_with_headers`.
 *
 * The network is abstract: attempt number `k` (0-based) sees the outcome
 * `network(k)`, either the bytes of the response or the text of the raised
 * exception. Sleeping is recorded as a `Backoff(k)` event in a trace
 * beside the `Attempt(k)` events; its duration is not modelled.
 */
module Fetch {
  import opened Wrappers
  import opened Text

  type Bytes = seq<bv8>

  /** What one call of `opener.open(url).read()` does. */
  datatype Outcome = Ok(data: Bytes) | Err(message: string)

  /** How `urlopen_with_headers` ends: it returns bytes, re-raises the last
      error, or (with no attempt made) executes `raise None`, which Python
      turns into a `TypeError`. */
  datatype FetchResult = Returned(data: Bytes) | Raised(message: string) | RaisedNone

  datatype Event = Attempt(index: nat) | Backoff(index: nat)

  const TransientMarkers: seq<string> :=
    ["429", "too many requests", "temporarily", "timed out", "403", "unavailable"]

  /** `any(x in msg for x in markers)`, scanning the markers in order. */
  function AnyMarker(msg: string, markers: seq<string>): bool {
    if markers == [] then false
    else Contains(msg, markers[0]) || AnyMarker(msg, markers[1..])
  }

  /** The scan finds a marker exactly when one of them occurs in the message. */
  lemma {:induction false} AnyMarkerMeaning(msg: string, markers: seq<string>)
    ensures AnyMarker(msg, markers) <==> exists i :: 0 <= i < |markers| && Occurs(msg, markers[i])
  {
    if markers != [] {
      ContainsMeaning(msg, markers[0]);
      AnyMarkerMeaning(msg, markers[1..]);
      assert forall i :: 1 <= i < |markers| ==> markers[i] == markers[1..][i - 1];
    }
  }

  /** An error is transient when its lower-cased text holds one of the markers. */
  function IsTransient(message: string): bool {
    AnyMarker(Lower(message), TransientMarkers)
  }

  /** The transient test holds exactly when some marker occurs in the
      lower-cased message. */
  lemma TransientMeaning(message: string)
    ensures IsTransient(message) <==>
      exists i :: 0 <= i < |TransientMarkers| && Occurs(Lower(message), TransientMarkers[i])
  {
    AnyMarkerMeaning(Lower(message), TransientMarkers);
  }

  /** The test ignores letter case. */
  lemma TransientIgnoresCase(message: string)
    ensures IsTransient(Lower(message)) == IsTransient(message)
  {
    LowerIdempotent(message);
  }

  /** Every marker is already in lower case. */
  lemma MarkersAreLower(i: nat)
    requires i < |TransientMarkers|
    ensures Lower(TransientMarkers[i]) == TransientMarkers[i]
  {
    var m := TransientMarkers[i];
    assert forall j :: 0 <= j < |m| ==> !IsUpper(m[j]);
    LowerOfLower(m);
  }

  /** A message that carries a marker anywhere, in any letter case, is transient. */
  lemma MarkerMakesTransient(pre: string, mid: string, post: string, i: nat)
    requires i < |TransientMarkers| && Lower(mid) == TransientMarkers[i]
    ensures IsTransient(pre + mid + post)
  {
    var m := TransientMarkers[i];
    LowerConcat(pre + mid, post);
    LowerConcat(pre, mid);
    assert OccursAt(m, m, 0);
    OccursInExtension(m, m, Lower(pre), Lower(post));
    assert Occurs(Lower(pre + mid + post), m);
    TransientMeaning(pre + mid + post);
  }

  /** How `urllib` renders an `HTTPError` and a `URLError` as text. */
  function HttpErrorText(code: string, reason: string): string {
    "HTTP Error " + code + ": " + reason
  }

  function UrlErrorText(reason: string): string {
    "<urlopen error " + reason + ">"
  }

  /** HTTP 429 and 403 responses are retried, whatever their reason phrase. */
  lemma ThrottlingCodesAreTransient(reason: string)
    ensures IsTransient(HttpErrorText("429", reason))
    ensures IsTransient(HttpErrorText("403", reason))
  {
    MarkersAreLower(0);
    MarkerMakesTransient("HTTP Error ", "429", ": " + reason, 0);
    assert HttpErrorText("429", reason) == "HTTP Error " + "429" + (": " + reason);
    MarkersAreLower(4);
    MarkerMakesTransient("HTTP Error ", "403", ": " + reason, 4);
    assert HttpErrorText("403", reason) == "HTTP Error " + "403" + (": " + reason);
  }

  /** The marker "unavailable", written with a capital as in the reason
      phrase. */
  lemma UnavailableLowered()
    ensures Lower("Unavailable") == TransientMarkers[5]
  {
    LowerLiteral("Unavailable", "unavailable");
  }

  /** A "Service Unavailable" response is retried whatever its code: the
      test ignores letter case. The marker ends the message, so nothing
      follows it. */
  lemma ServiceUnavailableIsTransient(code: string)
    ensures IsTransient(HttpErrorText(code, "Service Unavailable"))
  {
    assert HttpErrorText(code, "Service Unavailable") == ("HTTP Error " + code + ": Service ") + "Unavailable";
    UnavailableAfter("HTTP Error " + code + ": Service ");
  }

  /** The marker "Unavailable" ends a message with any prefix. The prefix is
      a parameter here, so the proof does not lower-case its literal text. */
  lemma UnavailableAfter(pre: string)
    ensures IsTransient(pre + "Unavailable")
  {
    UnavailableLowered();
    MarkerMakesTransient(pre, "Unavailable", [], 5);
    assert pre + "Unavailable" + [] == pre + "Unavailable";
  }

  /** A socket time-out is retried. */
  lemma TimedOutIsTransient(pre: string, post: string)
    ensures IsTransient(UrlErrorText(pre + "timed out" + post))
  {
    var before, after := "<urlopen error " + pre, post + ">";
    assert UrlErrorText(pre + "timed out" + post) == before + "timed out" + after;
    MarkersAreLower(3);
    MarkerMakesTransient(before, "timed out", after, 3);
  }

  /** Each marker holds one of the characters 2, 3, m and v, so a message
      holding none of them, in either case, is not retried. */
  predicate MarkerChar(c: char) {
    c == '2' || c == '3' || c == 'm' || c == 'M' || c == 'v' || c == 'V'
  }

  lemma WithoutMarkerCharsNotTransient(message: string)
    requires forall i :: 0 <= i < |message| ==> !MarkerChar(message[i])
    ensures !IsTransient(message)
  {
    var l := Lower(message);
    LowerSpec(message);
    assert '2' !in l && '3' !in l && 'm' !in l && 'v' !in l by {
      forall i | 0 <= i < |l|
        ensures l[i] != '2' && l[i] != '3' && l[i] != 'm' && l[i] != 'v'
      {
        assert l[i] == LowerChar(message[i]);
      }
    }
    forall i | 0 <= i < |TransientMarkers|
      ensures !Occurs(l, TransientMarkers[i])
    {
      MarkerCharAbsent(l, i);
    }
    TransientMeaning(message);
  }

  lemma MarkerCharAbsent(l: string, i: nat)
    requires i < |TransientMarkers|
    requires '2' !in l && '3' !in l && 'm' !in l && 'v' !in l
    ensures !Occurs(l, TransientMarkers[i])
  {
    var m := TransientMarkers[i];
    var j := if i == 0 then 1 else if i == 1 then 4 else if i == 2 then 2
             else if i == 3 then 2 else if i == 4 then 2 else 3;
    assert m[j] in "23mv";
    MissingCharBlocks(l, m, j);
  }

  /** A missing resource is not retried. */
  lemma NotFoundIsNotTransient()
    ensures !IsTransient(HttpErrorText("404", "Not Found"))
  {
    var m := HttpErrorText("404", "Not Found");
    assert m == "HTTP Error 404: Not Found";
    assert forall i :: 0 <= i < |m| ==> !MarkerChar(m[i]);
    WithoutMarkerCharsNotTransient(m);
  }

  /** An outcome after which the loop makes no further attempt. */
  predicate Stops(o: Outcome) {
    o.Ok? || !IsTransient(o.message)
  }

  /** The first attempt index at or after `from` that stops the loop,
      or `retries` when every remaining attempt fails transiently. */
  function FirstStop(network: nat -> Outcome, retries: int, from: nat): (s: nat)
    decreases retries - from
    ensures from <= s
    ensures s <= retries || s == from
    ensures forall j :: from <= j < s ==> !Stops(network(j))
    ensures s < retries ==> Stops(network(s))
  {
    if retries <= from then from
    else if Stops(network(from)) then from
    else FirstStop(network, retries, from + 1)
  }

  function StopIndex(network: nat -> Outcome, retries: int): nat {
    FirstStop(network, retries, 0)
  }

  /** The events of `n` attempts that each failed transiently. */
  function BackedOff(n: nat): seq<Event> {
    if n == 0 then [] else BackedOff(n - 1) + [Attempt(n - 1), Backoff(n - 1)]
  }

  /** What the loop is meant to produce, stated through the stop index. */
  function ExpectedResult(network: nat -> Outcome, retries: int): FetchResult {
    var s := StopIndex(network, retries);
    if s < retries then
      match network(s)
      case Ok(data) => Returned(data)
      case Err(m) => Raised(m)
    else if retries <= 0 then RaisedNone
    else Raised(network(retries - 1).message)
  }

  function ExpectedTrace(network: nat -> Outcome, retries: int): seq<Event> {
    var s := StopIndex(network, retries);
    BackedOff(s) + if s < retries then [Attempt(s)] else []
  }

  /** `urlopen_with_headers`: up to `retries` attempts, returning on the first
      success, backing off after a transient error and giving up at once on
      any other error, then re-raising the last error. */
  method UrlopenWithHeaders(network: nat -> Outcome, retries: int) returns (r: FetchResult, trace: seq<Event>)
    ensures r == ExpectedResult(network, retries)
    ensures trace == ExpectedTrace(network, retries)
  {
    var lastErr: Option<string> := None;
    trace := [];
    var attempt: nat := 0;
    while attempt < retries
      invariant attempt <= retries || attempt == 0
      invariant forall j :: 0 <= j < attempt ==> !Stops(network(j))
      invariant trace == BackedOff(attempt)
      invariant lastErr == if attempt == 0 then None else Some(network(attempt - 1).message)
    {
      trace := trace + [Attempt(attempt)];
      match network(attempt) {
        case Ok(data) =>
          assert StopIndex(network, retries) == attempt;
          r := Returned(data);
          return;
        case Err(msg) =>
          lastErr := Some(msg);
          if !IsTransient(msg) {
            assert StopIndex(network, retries) == attempt;
            break;
          }
          trace := trace + [Backoff(attempt)];
      }
      attempt := attempt + 1;
    }
    match lastErr {
      case None => r := RaisedNone;
      case Some(e) => r := Raised(e);
    }
  }
}

/** Properties of the retry policy, stated on the specification that
    `Fetch.UrlopenWithHeaders` is proved to meet. */
module RetryPolicy {
  import opened Fetch

  /** Attempts 0 .. k-1 all failed with a transient error, so attempt `k` is made
      (when `k < retries`). */
  ghost predicate Reached(network: nat -> Outcome, k: nat) {
    forall j :: 0 <= j < k ==> network(j).Err? && IsTransient(network(j).message)
  }

  function CountAttempts(t: seq<Event>): nat {
    if t == [] then 0 else (if t[0].Attempt? then 1 else 0) + CountAttempts(t[1..])
  }

  lemma {:induction false} CountAttemptsConcat(a: seq<Event>, b: seq<Event>)
    ensures CountAttempts(a + b) == CountAttempts(a) + CountAttempts(b)
  {
    if a == [] {
      assert a + b == b;
    } else {
      assert (a + b)[1..] == a[1..] + b;
      CountAttemptsConcat(a[1..], b);
    }
  }

  /** `n` transient failures leave attempt k at position 2k and its backoff at 2k+1. */
  lemma {:induction false} BackedOffShape(n: nat)
    ensures |BackedOff(n)| == 2 * n
    ensures CountAttempts(BackedOff(n)) == n
    ensures forall i :: 0 <= i < 2 * n ==>
      BackedOff(n)[i] == if i % 2 == 0 then Attempt(i / 2) else Backoff(i / 2)
  {
    if n > 0 {
      BackedOffShape(n - 1);
      CountAttemptsConcat(BackedOff(n - 1), [Attempt(n - 1), Backoff(n - 1)]);
      var pair := [Attempt(n - 1), Backoff(n - 1)];
      assert pair[1..] == [Backoff(n - 1)] && [Backoff(n - 1)][1..] == [];
      assert CountAttempts([Backoff(n - 1)]) == 0;
      assert CountAttempts(pair) == 1;
    }
  }

  /** The whole trace: attempts and backoffs alternate, attempt k comes at
      position 2k, and a backoff follows only a transient error. */
  lemma TraceShape(network: nat -> Outcome, retries: int)
    ensures var t, s := ExpectedTrace(network, retries), StopIndex(network, retries);
      && |t| == 2 * s + (if s < retries then 1 else 0)
      && (forall i :: 0 <= i < |t| ==>
            t[i] == if i % 2 == 0 then Attempt(i / 2) else Backoff(i / 2))
      && (forall i :: 0 <= i < |t| && t[i].Backoff? ==>
            network(t[i].index).Err? && IsTransient(network(t[i].index).message))
  {
    var s := StopIndex(network, retries);
    BackedOffShape(s);
  }

  /** At most `retries` attempts are made, and none at all when `retries <= 0`. */
  lemma AttemptsAtMostRetries(network: nat -> Outcome, retries: int)
    ensures retries >= 0 ==> CountAttempts(ExpectedTrace(network, retries)) <= retries
    ensures retries <= 0 ==> ExpectedTrace(network, retries) == []
  {
    var s := StopIndex(network, retries);
    BackedOffShape(s);
    if s < retries {
      CountAttemptsConcat(BackedOff(s), [Attempt(s)]);
      assert [Attempt(s)][1..] == [];
    } else {
      assert ExpectedTrace(network, retries) == BackedOff(s);
    }
  }

  /** The stop index is the attempt that succeeded or failed for good. */
  lemma StopIndexAt(network: nat -> Outcome, retries: int, k: nat)
    requires k < retries && Reached(network, k) && Stops(network(k))
    ensures StopIndex(network, retries) == k
  {
  }

  /** A successful attempt returns its bytes and is the last attempt made. */
  lemma SuccessEndsLoop(network: nat -> Outcome, retries: int, k: nat)
    requires k < retries && Reached(network, k) && network(k).Ok?
    ensures ExpectedResult(network, retries) == Returned(network(k).data)
    ensures var t := ExpectedTrace(network, retries);
      && |t| == 2 * k + 1 && t[2 * k] == Attempt(k)
      && forall i :: 0 <= i < |t| ==> t[i].index <= k
  {
    StopIndexAt(network, retries, k);
    TraceShape(network, retries);
  }

  /** A non-transient error ends the loop at once: no backoff for it, no
      further attempt, and that error is raised. */
  lemma PermanentErrorEndsLoop(network: nat -> Outcome, retries: int, k: nat)
    requires k < retries && Reached(network, k)
    requires network(k).Err? && !IsTransient(network(k).message)
    ensures ExpectedResult(network, retries) == Raised(network(k).message)
    ensures var t := ExpectedTrace(network, retries);
      && |t| == 2 * k + 1 && t[2 * k] == Attempt(k)
      && (forall i :: 0 <= i < |t| ==> t[i].index <= k)
      && Backoff(k) !in t
  {
    StopIndexAt(network, retries, k);
    TraceShape(network, retries);
  }

  /** A transient error is followed by exactly one backoff keyed to its
      attempt index, then by the next attempt or, with none left, the end. */
  lemma TransientBacksOffOnce(network: nat -> Outcome, retries: int, k: nat)
    requires k < retries && Reached(network, k + 1)
    ensures var t := ExpectedTrace(network, retries);
      && 2 * k + 2 <= |t|
      && t[2 * k] == Attempt(k) && t[2 * k + 1] == Backoff(k)
      && (forall i :: 0 <= i < |t| && t[i] == Backoff(k) ==> i == 2 * k + 1)
      && (k + 1 < retries ==> t[2 * k + 2] == Attempt(k + 1))
      && (k + 1 == retries ==> |t| == 2 * k + 2)
  {
    var s := StopIndex(network, retries);
    assert k < s;
    TraceShape(network, retries);
  }

  /** Whenever at least one attempt is allowed, the call ends with the outcome
      of the last attempt it made: its bytes, or its error re-raised. */
  lemma EndsWithLastAttempt(network: nat -> Outcome, retries: int)
    requires retries >= 1
    ensures var r, n := ExpectedResult(network, retries), CountAttempts(ExpectedTrace(network, retries));
      && 1 <= n <= retries
      && 2 * (n - 1) < |ExpectedTrace(network, retries)|
      && ExpectedTrace(network, retries)[2 * (n - 1)] == Attempt(n - 1)
      && (r.Returned? <==> network(n - 1).Ok?)
      && (r.Returned? ==> r.data == network(n - 1).data)
      && (r.Raised? ==> r.message == network(n - 1).message)
      && !r.RaisedNone?
  {
    var s := StopIndex(network, retries);
    TraceShape(network, retries);
    AttemptsAtMostRetries(network, retries);
    BackedOffShape(s);
    if s < retries {
      CountAttemptsConcat(BackedOff(s), [Attempt(s)]);
      assert [Attempt(s)][1..] == [];
    } else {
      assert ExpectedTrace(network, retries) == BackedOff(s);
    }
  }

  /** When every attempt fails transiently, the error of the last one is raised. */
  lemma AllTransientRaisesLast(network: nat -> Outcome, retries: int)
    requires retries >= 1 && Reached(network, retries as nat)
    ensures ExpectedResult(network, retries) == Raised(network(retries - 1).message)
    ensures ExpectedTrace(network, retries) == BackedOff(retries as nat)
  {
    var s := StopIndex(network, retries);
    assert s == retries;
  }

  /** With no attempt allowed, `raise None` is reached without touching the network. */
  lemma NoAttemptRaisesNone(network: nat -> Outcome, retries: int)
    requires retries <= 0
    ensures ExpectedResult(network, retries) == RaisedNone
    ensures ExpectedTrace(network, retries) == []
  {
  }
}
