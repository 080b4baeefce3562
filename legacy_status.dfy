// The /getStatus handler of the earlier host tool, nodejs/serial.js: poll the
// sensors 1..5 one after the other and label each reading. The float in
// bytes 3..6 of a reply is decoded by a function parameter.

module LegacyStatus {
  import opened Bytes

  const NotChargeBelow: real := 10.0
  const FullChargedBelow: real := 300.0

  /** One entry of `results`. */
  datatype Entry = Entry(id: nat, status: string)

  /** The label of one reading. */
  function Classify(value: real): (s: string)
    ensures s == "notcharge" <==> value < NotChargeBelow
    ensures s == "fullcharged" <==> NotChargeBelow <= value < FullChargedBelow
    ensures s == "charging" <==> FullChargedBelow <= value
  {
    if value < NotChargeBelow then "notcharge"
    else if value < FullChargedBelow then "fullcharged"
    else "charging"
  }

  /** The position of a label in the order notcharge, fullcharged, charging. */
  function Rank(s: string): nat
  {
    if s == "notcharge" then 0 else if s == "fullcharged" then 1 else 2
  }

  /** A larger reading never gets an earlier label. */
  lemma ClassifyMonotone(a: real, b: real)
    requires a <= b
    ensures Rank(Classify(a)) <= Rank(Classify(b))
  {
  }

  /** The entry for the reply to the poll of `id`; a reply too short for
      `readFloatLE` aborts the whole request. */
  function EntryOf(id: nat, resp: Option<seq<Byte>>, decode: seq<Byte> -> real): (e: Option<Entry>)
    ensures e.None? <==> resp.Some? && |resp.value| < 7
    ensures resp.None? ==> e == Some(Entry(id, "timeout"))
    ensures resp.Some? && |resp.value| >= 7 ==> e == Some(Entry(id, Classify(decode(resp.value[3..7]))))
  {
    match resp
    case None => Some(Entry(id, "timeout"))
    case Some(f) => if |f| < 7 then None else Some(Entry(id, Classify(decode(f[3..7]))))
  }

  /** The replies to the polls of ids 1..|resps|, in order; None once one of
      them aborted the request. */
  function Results(resps: seq<Option<seq<Byte>>>, decode: seq<Byte> -> real): Option<seq<Entry>>
  {
    if resps == [] then Some([])
    else
      var front := Results(resps[..|resps| - 1], decode);
      var e := EntryOf(|resps|, resps[|resps| - 1], decode);
      if front.None? || e.None? then None else Some(front.value + [e.value])
  }

  predicate Aborts(resp: Option<seq<Byte>>)
  {
    resp.Some? && |resp.value| < 7
  }

  /** The answer has one entry per polled id, in id order, each the label of
      its reply; there is no answer exactly when some reply was too short. */
  lemma {:induction false} ResultsMeans(resps: seq<Option<seq<Byte>>>, decode: seq<Byte> -> real)
    ensures Results(resps, decode).None? <==> exists k :: 0 <= k < |resps| && Aborts(resps[k])
    ensures Results(resps, decode).Some? ==>
              |Results(resps, decode).value| == |resps|
              && forall k :: 0 <= k < |resps| ==>
                   Some(Results(resps, decode).value[k]) == EntryOf(k + 1, resps[k], decode)
  {
    if resps != [] {
      var init := resps[..|resps| - 1];
      ResultsMeans(init, decode);
      if exists k :: 0 <= k < |init| && Aborts(init[k]) {
        var k :| 0 <= k < |init| && Aborts(init[k]);
        assert resps[k] == init[k];
      }
      forall k | 0 <= k < |init|
        ensures resps[k] == init[k]
      {
      }
    }
  }

  /** The ids polled by the handler. */
  const PolledIds: seq<nat> := [1, 2, 3, 4, 5]

  /** POST /getStatus: `resps[i]` is what sendAndWait resolved for id i + 1. */
  method GetStatus(resps: seq<Option<seq<Byte>>>, decode: seq<Byte> -> real) returns (results: Option<seq<Entry>>)
    requires |resps| == |PolledIds|
    ensures results == Results(resps, decode)
  {
    var acc: seq<Entry> := [];
    var id := 1;
    while id <= 5
      invariant 1 <= id <= 6
      invariant Results(resps[..id - 1], decode) == Some(acc)
    {
      assert resps[..id][..id - 1] == resps[..id - 1];
      var resp := resps[id - 1];
      if resp.Some? {
        var f := resp.value;
        if |f| < 7 {
          AbortStays(resps, id, decode);
          return None;
        }
        acc := acc + [Entry(id, Classify(decode(f[3..7])))];
      } else {
        acc := acc + [Entry(id, "timeout")];
      }
      id := id + 1;
    }
    assert resps[..5] == resps;
    results := Some(acc);
  }

  /** Once a reply aborts the request, so does every longer run of replies. */
  lemma AbortStays(resps: seq<Option<seq<Byte>>>, n: nat, decode: seq<Byte> -> real)
    requires 1 <= n <= |resps| && Aborts(resps[n - 1])
    ensures Results(resps, decode) == None
  {
    ResultsMeans(resps, decode);
  }
}
