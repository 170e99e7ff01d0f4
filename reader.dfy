/**
 * `read_exact`: collect `n` bytes from the serial port, or whatever arrived
 * before the receive deadline.
 *
 * The port is modelled by what enters its input buffer: `arrivals[t]` are the
 * bytes that have come in by the `t`-th pass of the loop (bytes already
 * waiting before the call belong to `arrivals[0]`; passes beyond the
 * schedule bring nothing). A read of `k` bytes takes at most `k` of the
 * waiting bytes, oldest first, as a read with `timeout=0` does. The clock is
 * a budget of loop passes: the deadline has passed once `budget` passes ran.
 */
module Reader {
  import opened Frame

  function Min(a: nat, b: nat): nat {
    if a <= b then a else b
  }

  /** All chunks, in order, as one byte string. */
  function Flatten(chunks: seq<seq<Byte>>): seq<Byte> {
    if chunks == [] then [] else Flatten(chunks[..|chunks| - 1]) + chunks[|chunks| - 1]
  }

  /** Everything that entered the port's input buffer during the first `t` passes. */
  function Arrived(arrivals: seq<seq<Byte>>, t: nat): seq<Byte> {
    Flatten(arrivals[..Min(t, |arrivals|)])
  }

  /** At most the first `n` bytes of `s`. */
  function Take(s: seq<Byte>, n: nat): (r: seq<Byte>)
    ensures |r| == Min(n, |s|) && r == s[..|r|]
  {
    if |s| <= n then s else s[..n]
  }

  lemma {:induction false} FlattenAppend(chunks: seq<seq<Byte>>, more: seq<seq<Byte>>)
    ensures Flatten(chunks + more) == Flatten(chunks) + Flatten(more)
  {
    if more == [] {
      assert chunks + more == chunks;
    } else {
      var init := more[..|more| - 1];
      assert (chunks + more)[..|chunks + more| - 1] == chunks + init;
      FlattenAppend(chunks, init);
    }
  }

  /** One more pass adds that pass's chunk after everything before it. */
  lemma ArrivedStep(arrivals: seq<seq<Byte>>, t: nat)
    ensures Arrived(arrivals, t + 1) ==
      Arrived(arrivals, t) + (if t < |arrivals| then arrivals[t] else [])
  {
    if t < |arrivals| {
      assert arrivals[..t + 1][..t] == arrivals[..t];
    }
  }

  /** What has arrived only grows: an earlier view is a prefix of a later one. */
  lemma {:induction false} ArrivedGrows(arrivals: seq<seq<Byte>>, t: nat, u: nat)
    requires t <= u
    ensures |Arrived(arrivals, t)| <= |Arrived(arrivals, u)|
    ensures Arrived(arrivals, t) == Arrived(arrivals, u)[..|Arrived(arrivals, t)|]
  {
    if t < u {
      ArrivedGrows(arrivals, t, u - 1);
      ArrivedStep(arrivals, u - 1);
    }
  }

  /**
   * The loop of `read_exact`. It returns the bytes collected, the bytes left
   * waiting in the port, and the number of passes it made.
   */
  method ReadExact(n: nat, arrivals: seq<seq<Byte>>, budget: nat)
    returns (buf: seq<Byte>, leftover: seq<Byte>, ticks: nat)
    ensures buf == Take(Arrived(arrivals, budget), n)
    ensures ticks <= budget
    ensures buf + leftover == Arrived(arrivals, ticks)
    ensures |buf| < n ==> ticks == budget
    ensures forall t :: 0 <= t < ticks ==> |Arrived(arrivals, t)| < n
  {
    buf, leftover, ticks := [], [], 0;
    while |buf| < n && ticks < budget
      invariant ticks <= budget
      invariant |buf| <= n
      invariant buf + leftover == Arrived(arrivals, ticks)
      invariant |buf| < n ==> leftover == []
      invariant forall t :: 0 <= t < ticks ==> |Arrived(arrivals, t)| < n
      decreases budget - ticks
    {
      assert |Arrived(arrivals, ticks)| < n;
      ArrivedStep(arrivals, ticks);
      var incoming := if ticks < |arrivals| then arrivals[ticks] else [];
      assert (buf + leftover) + incoming == buf + (leftover + incoming);
      leftover := leftover + incoming;
      // one read asks for the bytes still missing and gets at most that many of those waiting
      var k := Min(n - |buf|, |leftover|);
      var chunk := leftover[..k];
      assert (buf + chunk) + leftover[k..] == buf + leftover;
      assert |buf + chunk| < n ==> leftover[k..] == [];
      // an empty chunk is followed by a short sleep: the pass still costs one tick
      buf, leftover := buf + chunk, leftover[k..];
      ticks := ticks + 1;
    }
    ArrivedGrows(arrivals, ticks, budget);
  }

  function Silence(d: nat): (q: seq<seq<Byte>>)
    ensures |q| == d && forall t :: 0 <= t < d ==> q[t] == []
  {
    seq(d, _ => [])
  }

  lemma {:induction false} FlattenSilence(d: nat)
    ensures Flatten(Silence(d)) == []
  {
    if d > 0 {
      assert Silence(d)[..d - 1] == Silence(d - 1);
      FlattenSilence(d - 1);
    }
  }

  /**
   * A device that stays silent for `d` passes and then sends `reply` at once:
   * the whole (first `n` bytes of the) reply is read when `d` is below the
   * budget, and nothing at all otherwise.
   */
  lemma DelayedReply(n: nat, d: nat, reply: seq<Byte>, budget: nat)
    ensures Take(Arrived(Silence(d) + [reply], budget), n) == if d < budget then Take(reply, n) else []
  {
    var arrivals := Silence(d) + [reply];
    FlattenSilence(d);
    if d < budget {
      assert arrivals[..Min(budget, |arrivals|)] == arrivals;
      FlattenAppend(Silence(d), [reply]);
      assert Flatten([reply]) == Flatten([reply][..0]) + reply;
      assert [reply][..0] == [];
    } else {
      assert arrivals[..Min(budget, |arrivals|)] == Silence(budget);
      FlattenSilence(budget);
    }
  }
}
