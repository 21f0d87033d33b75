/**
  The view-model's rolling status log: the newest line first, at most
  `MaxMessageNumber` lines kept.
*/
module MessageLog {

  /** `HeapViewModel.MAX_MESSAGE_NUMBER`. */
  const MaxMessageNumber: nat := 100

  /** The first `n` elements of `s`, or all of `s` when it is shorter. */
  function Take(s: seq<string>, n: nat): (r: seq<string>)
    ensures |r| == if |s| <= n then |s| else n
    ensures forall k :: 0 <= k < |r| ==> r[k] == s[k]
  {
    if |s| <= n then s else s[..n]
  }

  function Reverse(s: seq<string>): (r: seq<string>)
    ensures |r| == |s|
  {
    if |s| == 0 then [] else Reverse(s[1..]) + [s[0]]
  }

  /**
    One `update_messages(m)`: `m` goes in front of the old log, and the result
    is cut back to `MaxMessageNumber` lines.
  */
  function PushMessage(log: seq<string>, m: string): (r: seq<string>)
    ensures |r| == if |log| < MaxMessageNumber then |log| + 1 else MaxMessageNumber
    ensures r[0] == m
    ensures forall k :: 1 <= k < |r| ==> r[k] == log[k - 1]
  {
    var full := [m] + log;
    if |full| > MaxMessageNumber then full[..MaxMessageNumber] else full
  }

  /** The log after `update_messages` is called with each of `ms` in turn. */
  function PushAll(log: seq<string>, ms: seq<string>): seq<string>
    decreases |ms|
  {
    if |ms| == 0 then log else PushAll(PushMessage(log, ms[0]), ms[1..])
  }

  /** Cutting twice to the same bound is cutting once. */
  lemma TakeOfTake(a: seq<string>, b: seq<string>, n: nat)
    ensures Take(a + Take(b, n), n) == Take(a + b, n)
  {
    var l := Take(a + Take(b, n), n);
    var r := Take(a + b, n);
    assert |l| == |r|;
    forall k | 0 <= k < |l| ensures l[k] == r[k] {
      if k >= |a| {
        assert (a + Take(b, n))[k] == Take(b, n)[k - |a|];
      }
    }
  }

  /**
    After any run of messages the log holds the most recent ones, newest first,
    followed by what was there before, cut to `MaxMessageNumber` lines.
  */
  lemma {:induction false} PushAllKeepsMostRecent(log: seq<string>, ms: seq<string>)
    requires |log| <= MaxMessageNumber
    ensures PushAll(log, ms) == Take(Reverse(ms) + log, MaxMessageNumber)
    decreases |ms|
  {
    if |ms| == 0 {
      assert Reverse(ms) + log == log;
    } else {
      var m, rest := ms[0], ms[1..];
      var pushed := PushMessage(log, m);
      PushAllKeepsMostRecent(pushed, rest);
      PushMessageIsTake(log, m);
      TakeOfTake(Reverse(rest), [m] + log, MaxMessageNumber);
      ReverseAppend(ms, log);
    }
  }

  lemma {:induction false} PushMessageIsTake(log: seq<string>, m: string)
    ensures PushMessage(log, m) == Take([m] + log, MaxMessageNumber)
  {
  }

  lemma {:induction false} ReverseAppend(ms: seq<string>, log: seq<string>)
    requires |ms| >= 1
    ensures Reverse(ms) + log == Reverse(ms[1..]) + ([ms[0]] + log)
  {
    var front := Reverse(ms[1..]);
    assert Reverse(ms) == front + [ms[0]];
    assert (front + [ms[0]]) + log == front + ([ms[0]] + log);
  }

  /**
    The log never grows past its bound once it starts within it, it fills up
    to exactly the bound once that many lines have been seen, and its head is
    the latest line.
  */
  lemma {:induction false} PushAllBounded(log: seq<string>, ms: seq<string>)
    requires |log| <= MaxMessageNumber
    ensures |PushAll(log, ms)| <= MaxMessageNumber
    ensures |PushAll(log, ms)| == if |log| + |ms| < MaxMessageNumber then |log| + |ms| else MaxMessageNumber
    ensures |ms| >= 1 ==> |PushAll(log, ms)| >= 1 && PushAll(log, ms)[0] == ms[|ms| - 1]
  {
    PushAllKeepsMostRecent(log, ms);
    if |ms| >= 1 {
      ReverseFirst(ms);
    }
  }

  lemma {:induction false} ReverseFirst(s: seq<string>)
    requires |s| >= 1
    ensures Reverse(s)[0] == s[|s| - 1]
    decreases |s|
  {
    if |s| > 1 {
      ReverseFirst(s[1..]);
    }
  }
}
