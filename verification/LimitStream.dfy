/** A stream of batches cut off after a number of rows (LimitBatchStream in datafusion/src/hudi_exec.rs). */
module LimitStream {
  /** What one poll of a stream gives. */
  datatype Poll<T> = Pending | Batch(rows: seq<T>) | Error | End

  /** What the inner stream will answer, poll by poll; after its last answer it is at its end. */
  type Script<T> = seq<Poll<T>>

  function Limited<T>(remaining: nat, inner: Poll<T>): Poll<T> {
    if inner.Batch? && |inner.rows| > remaining then Batch(inner.rows[..remaining]) else inner
  }

  function Left<T>(remaining: nat, inner: Poll<T>): nat {
    if !inner.Batch? then remaining
    else if |inner.rows| > remaining then 0
    else remaining - |inner.rows|
  }

  class LimitBatchStream<T> {
    var inner: Script<T>
    var remaining: nat

    constructor (inner: Script<T>, limit: nat)
      ensures this.inner == inner && remaining == limit
    {
      this.inner := inner;
      remaining := limit;
    }

    method PollInner() returns (p: Poll<T>)
      modifies this`inner
      ensures p == if old(inner) == [] then End else old(inner)[0]
      ensures inner == if old(inner) == [] then [] else old(inner)[1..]
    {
      if inner == [] {
        return End;
      }
      p := inner[0];
      inner := inner[1..];
    }

    method PollNext() returns (p: Poll<T>)
      modifies this
      ensures old(remaining) == 0 ==> p == End && inner == old(inner) && remaining == 0
      ensures old(remaining) > 0 && old(inner) == [] ==> p == End && inner == [] && remaining == old(remaining)
      ensures old(remaining) > 0 && old(inner) != [] ==>
        && p == Limited(old(remaining), old(inner)[0])
        && remaining == Left(old(remaining), old(inner)[0])
        && inner == old(inner)[1..]
    {
      if remaining == 0 {
        return End;
      }
      p := PollInner();
      match p {
        case Batch(rows) =>
          if |rows| > remaining {
            var limited := rows[..remaining];
            remaining := 0;
            return Batch(limited);
          } else {
            remaining := remaining - |rows|;
          }
        case _ =>
      }
    }
  }

  // ---------------------------------------------------------------- whole runs

  /** All that a consumer sees up to the end of the stream. */
  function Emitted<T>(remaining: nat, script: Script<T>): seq<Poll<T>>
    decreases |script|
  {
    if remaining == 0 || script == [] || script[0].End? then []
    else [Limited(remaining, script[0])] + Emitted(Left(remaining, script[0]), script[1..])
  }

  /** How many of its answers the inner stream has given when the end is seen. */
  function Consumed<T>(remaining: nat, script: Script<T>): (n: nat)
    ensures n <= |script|
    decreases |script|
  {
    if remaining == 0 || script == [] then 0
    else if script[0].End? then 1
    else 1 + Consumed(Left(remaining, script[0]), script[1..])
  }

  /** What is left to give when the end is seen. */
  function LeftAtEnd<T>(remaining: nat, script: Script<T>): nat
    decreases |script|
  {
    if remaining == 0 || script == [] || script[0].End? then remaining
    else LeftAtEnd(Left(remaining, script[0]), script[1..])
  }

  function Rows<T>(polls: seq<Poll<T>>): seq<T> {
    if polls == [] then [] else (if polls[0].Batch? then polls[0].rows else []) + Rows(polls[1..])
  }

  /** The answers the inner stream gives before its end. */
  function UpToEnd<T>(script: Script<T>): Script<T> {
    if script == [] || script[0].End? then [] else [script[0]] + UpToEnd(script[1..])
  }

  function Min(a: nat, b: nat): nat {
    if a <= b then a else b
  }

  /** Polling to the end, as a consumer does, sees exactly the run described by the functions above. */
  method Drain<T>(s: LimitBatchStream<T>) returns (seen: seq<Poll<T>>)
    modifies s
    ensures seen == Emitted(old(s.remaining), old(s.inner))
    ensures s.remaining == LeftAtEnd(old(s.remaining), old(s.inner))
    ensures s.inner == old(s.inner)[Consumed(old(s.remaining), old(s.inner))..]
  {
    seen := [];
    ghost var limit, script := s.remaining, s.inner;
    while true
      invariant seen + Emitted(s.remaining, s.inner) == Emitted(limit, script)
      invariant LeftAtEnd(s.remaining, s.inner) == LeftAtEnd(limit, script)
      invariant s.inner[Consumed(s.remaining, s.inner)..] == script[Consumed(limit, script)..]
      decreases |s.inner|
    {
      var p := s.PollNext();
      if p.End? {
        return;
      }
      seen := seen + [p];
    }
  }

  /**
   * Over every run: the rows given are the first rows of the input, as many as the limit allows; and
   * rows given and rows left always make up the limit.
   */
  lemma {:induction false} RunGivesPrefix<T>(limit: nat, script: Script<T>)
    ensures var given, input := Rows(Emitted(limit, script)), Rows(UpToEnd(script));
      && given == input[..Min(limit, |input|)]
      && |given| + LeftAtEnd(limit, script) == limit
    decreases |script|
  {
    if limit == 0 || script == [] || script[0].End? {
    } else {
      var first, left := script[0], Left(limit, script[0]);
      RunGivesPrefix(left, script[1..]);
      var given, input := Rows(Emitted(left, script[1..])), Rows(UpToEnd(script[1..]));
      assert Emitted(limit, script)[1..] == Emitted(left, script[1..]);
      assert UpToEnd(script)[1..] == UpToEnd(script[1..]);
      if first.Batch? {
        assert Rows(UpToEnd(script)) == first.rows + input;
        assert Rows(Emitted(limit, script)) == Limited(limit, first).rows + given;
        if |first.rows| > limit {
          assert given == [];
          assert (first.rows + input)[..limit] == first.rows[..limit];
        } else {
          assert (first.rows + input)[..Min(limit, |first.rows + input|)] == first.rows + input[..Min(left, |input|)];
        }
      }
    }
  }

  /** The rows given before an answer, and so what is left for it, step by step. */
  lemma GivenStep<T>(limit: nat, script: Script<T>, i: nat)
    requires 0 < i < |Emitted(limit, script)|
    ensures var (left, rest) := (Left(limit, script[0]), script[1..]);
      && Emitted(limit, script)[i] == Emitted(left, rest)[i - 1]
      && |Emitted(limit, script)| == |Emitted(left, rest)| + 1
      && |Rows(Emitted(limit, script)[..i])| - |Rows(Emitted(left, rest)[..i - 1])| == limit - left
  {
    var e, rest := Emitted(limit, script), Emitted(Left(limit, script[0]), script[1..]);
    assert e == [Limited(limit, script[0])] + rest;
    assert e[..i][0] == e[0] && e[..i][1..] == rest[..i - 1];
  }

  /** Answer by answer, everything but an over-long last batch passes through as it is, errors included. */
  lemma {:induction false} RunPassesThrough<T>(limit: nat, script: Script<T>, i: nat)
    requires i < |Emitted(limit, script)|
    ensures |Emitted(limit, script)| <= |UpToEnd(script)|
    ensures var given, asked := Emitted(limit, script)[i], UpToEnd(script)[i];
      && |Rows(Emitted(limit, script)[..i])| < limit
      && given == Limited(limit - |Rows(Emitted(limit, script)[..i])|, asked)
      && (!asked.Batch? ==> given == asked)
      && (given != asked ==> i == |Emitted(limit, script)| - 1)
    decreases |script|
  {
    AnswersAreConsumed(limit, script);
    if i > 0 {
      var left, rest := Left(limit, script[0]), script[1..];
      GivenStep(limit, script, i);
      RunPassesThrough(left, rest, i - 1);
      assert UpToEnd(script) == [script[0]] + UpToEnd(rest);
    }
  }

  /**
   * Each answer given took one answer of the inner stream. Nothing more is asked of it once the limit is
   * met; short of that, only its end is.
   */
  lemma {:induction false} AnswersAreConsumed<T>(limit: nat, script: Script<T>)
    ensures var n := |Emitted(limit, script)|;
      && n <= |UpToEnd(script)|
      && Consumed(limit, script) == n + (if LeftAtEnd(limit, script) > 0 && n < |script| then 1 else 0)
      && (LeftAtEnd(limit, script) > 0 && n < |script| ==> script[n].End?)
    decreases |script|
  {
    if !(limit == 0 || script == [] || script[0].End?) {
      AnswersAreConsumed(Left(limit, script[0]), script[1..]);
    }
  }
}
