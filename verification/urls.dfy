/** The endpoint getters of the benchmark configuration (main.go, `Config.GetWsUrl`
    and `Config.GetSendUrl`) and the Go `strings.ReplaceAll` they rely on. */
module Urls {

  /** The part of the configuration file that decides which endpoints are dialled.
      The other fields (key, rate limit, count, fee, retries) are not modelled here. */
  datatype Config = Config(rpcUrl: string, wsUrl: string, sendRpcUrl: string)

  /** `pat` occurs in `s` starting at index `i`. */
  predicate OccursAt(s: string, pat: string, i: nat)
  {
    i + |pat| <= |s| && forall k :: 0 <= k < |pat| ==> s[i + k] == pat[k]
  }

  predicate Contains(s: string, pat: string)
  {
    exists i: nat | i <= |s| :: OccursAt(s, pat, i)
  }

  /** Go's `strings.ReplaceAll`: scan left to right and replace every
      non-overlapping occurrence of `target` by `repl`. An empty target matches
      before every character and at the end, as in Go. */
  function ReplaceAll(s: string, target: string, repl: string): (r: string)
    ensures |target| > 0 && |repl| > 0 ==> (|r| == 0 <==> |s| == 0)
    decreases |s|
  {
    if |target| == 0 then
      if |s| == 0 then repl else repl + [s[0]] + ReplaceAll(s[1..], target, repl)
    else if |s| == 0 then []
    else if OccursAt(s, target, 0) then repl + ReplaceAll(s[|target|..], target, repl)
    else [s[0]] + ReplaceAll(s[1..], target, repl)
  }

  /** The websocket endpoint: the configured one, or the RPC endpoint with its
      `http://` schemes turned into `ws://` and its `https://` schemes into `wss://`. */
  function GetWsUrl(c: Config): (r: string)
    ensures c.wsUrl != "" ==> r == c.wsUrl
    ensures c.wsUrl == "" ==> !Contains(r, "http://") && !Contains(r, "https://")
    ensures c.wsUrl == "" && !Contains(c.rpcUrl, "http://") && !Contains(c.rpcUrl, "https://") ==> r == c.rpcUrl
    ensures r == "" <==> c.wsUrl == "" && c.rpcUrl == ""
  {
    if c.wsUrl != "" then c.wsUrl
    else
      var t := ReplaceAll(c.rpcUrl, "http://", "ws://");
      ReplaceAllAvoids(c.rpcUrl, "http://", "ws://", "http://");
      ReplaceAllAvoids(t, "https://", "wss://", "http://");
      ReplaceAllAvoids(t, "https://", "wss://", "https://");
      ReplaceAllIdentity(c.rpcUrl, "http://", "ws://");
      ReplaceAllIdentity(c.rpcUrl, "https://", "wss://");
      ReplaceAll(t, "https://", "wss://")
  }

  /** The endpoint transactions are submitted to: the configured send endpoint,
      or the RPC endpoint when none is configured. */
  function GetSendUrl(c: Config): (r: string)
    ensures c.sendRpcUrl != "" ==> r == c.sendRpcUrl
    ensures c.sendRpcUrl == "" ==> r == c.rpcUrl
    ensures r == "" <==> c.sendRpcUrl == "" && c.rpcUrl == ""
  {
    if c.sendRpcUrl != "" then c.sendRpcUrl else c.rpcUrl
  }

  /** Occurrences in `s` are occurrences in `c + s`, shifted by `|c|`. */
  lemma OccursShift(c: string, s: string, p: string, i: nat)
    ensures OccursAt(c + s, p, |c| + i) <==> OccursAt(s, p, i)
  {
    if OccursAt(s, p, i) {
      forall k | 0 <= k < |p|
        ensures (c + s)[|c| + i + k] == p[k]
      {
        assert (c + s)[|c| + i + k] == s[i + k];
      }
    }
    if OccursAt(c + s, p, |c| + i) {
      forall k | 0 <= k < |p|
        ensures s[i + k] == p[k]
      {
        assert (c + s)[|c| + i + k] == s[i + k];
      }
    }
  }

  /** Where no occurrence starts at the front, the first character is copied. */
  lemma ReplaceAllStep(s: string, target: string, repl: string)
    requires |target| > 0 && |s| > 0 && !OccursAt(s, target, 0)
    ensures ReplaceAll(s, target, repl) == [s[0]] + ReplaceAll(s[1..], target, repl)
  {
  }

  /** Dropping the first character of `a` keeps `a` free of occurrence starts. */
  lemma NoOccurrenceInTail(a: string, b: string, target: string)
    requires |a| > 0
    requires forall i: nat :: i < |a| ==> !OccursAt(a + b, target, i)
    ensures forall i: nat :: i < |a[1..]| ==> !OccursAt(a[1..] + b, target, i)
  {
    var c := [a[0]];
    var t := a[1..] + b;
    assert a + b == c + t;
    forall i: nat | i < |a[1..]|
      ensures !OccursAt(t, target, i)
    {
      OccursShift(c, t, target, i);
      assert !OccursAt(a + b, target, i + 1);
    }
  }

  /** A prefix in which no occurrence of the target starts is copied unchanged. */
  lemma {:induction false} ReplaceAllSkipsPrefix(a: string, b: string, target: string, repl: string)
    requires |target| > 0
    requires forall i: nat :: i < |a| ==> !OccursAt(a + b, target, i)
    ensures ReplaceAll(a + b, target, repl) == a + ReplaceAll(b, target, repl)
    decreases |a|
  {
    if |a| > 0 {
      NoOccurrenceInTail(a, b, target);
      ReplaceAllSkipsPrefix(a[1..], b, target, repl);
      ReplaceAllConsTail(a, b, target, repl);
      ConsAssoc(a, ReplaceAll(b, target, repl));
    } else {
      assert a + b == b;
    }
  }

  /** Re-attaching the first character of `a`. */
  lemma ConsAssoc(a: string, x: string)
    requires |a| > 0
    ensures [a[0]] + (a[1..] + x) == a + x
  {
    assert [a[0]] + a[1..] == a;
  }

  /** `ReplaceAll` on `a + b` copies `a[0]` when no occurrence starts there. */
  lemma ReplaceAllConsTail(a: string, b: string, target: string, repl: string)
    requires |a| > 0 && |target| > 0
    requires forall i: nat :: i < |a| ==> !OccursAt(a + b, target, i)
    ensures ReplaceAll(a + b, target, repl) == [a[0]] + ReplaceAll(a[1..] + b, target, repl)
  {
    assert !OccursAt(a + b, target, 0);
    ReplaceAllStep(a + b, target, repl);
    assert (a + b)[1..] == a[1..] + b;
  }

  /** A string without the target is left unchanged. */
  lemma ReplaceAllIdentity(s: string, target: string, repl: string)
    requires |target| > 0
    ensures !Contains(s, target) ==> ReplaceAll(s, target, repl) == s
  {
    if !Contains(s, target) {
      assert s + [] == s;
      ReplaceAllSkipsPrefix(s, [], target, repl);
    }
  }

  /** If the replaced string starts with `q`, and the replacement's first
      character does not occur in `q`, then the original string starts with `q`. */
  lemma {:induction false} PrefixPreimage(x: string, target: string, repl: string, q: string)
    requires |target| > 0 && |repl| > 0
    requires repl[0] !in q
    ensures OccursAt(ReplaceAll(x, target, repl), q, 0) ==> OccursAt(x, q, 0)
    decreases |x|
  {
    var r := ReplaceAll(x, target, repl);
    if |q| == 0 || |x| == 0 {
    } else if OccursAt(x, target, 0) {
      assert r[0] == repl[0];
      assert q[0] in q;
    } else {
      var tail := ReplaceAll(x[1..], target, repl);
      assert r == [x[0]] + tail;
      PrefixPreimage(x[1..], target, repl, q[1..]);
      if OccursAt(r, q, 0) {
        forall k | 0 <= k < |q| - 1
          ensures tail[k] == q[1..][k]
        {
          assert r[k + 1] == q[k + 1];
        }
        assert OccursAt(x[1..], q[1..], 0);
        forall k | 0 <= k < |q|
          ensures x[k] == q[k]
        {
          if k > 0 {
            assert x[1..][k - 1] == q[1..][k - 1];
          }
        }
      }
    }
  }

  /** A suffix of a string without `p` is without `p`. */
  lemma ContainsSuffix(s: string, k: nat, p: string)
    requires k <= |s|
    requires !Contains(s, p)
    ensures !Contains(s[k..], p)
  {
    assert s == s[..k] + s[k..];
    forall j: nat | j <= |s[k..]|
      ensures !OccursAt(s[k..], p, j)
    {
      OccursShift(s[..k], s[k..], p, j);
      assert !OccursAt(s, p, k + j);
    }
  }

  /** After replacing every `target`, no occurrence of `p` remains, provided `p`
      is the target itself or was absent, and the replacement can neither start
      nor continue an occurrence of `p`. */
  lemma {:induction false} ReplaceAllAvoids(s: string, target: string, repl: string, p: string)
    requires |target| > 0 && |repl| > 0 && |p| > 0
    requires p[0] !in repl && repl[0] !in p[1..]
    requires p == target || !Contains(s, p)
    ensures !Contains(ReplaceAll(s, target, repl), p)
    decreases |s|
  {
    var r := ReplaceAll(s, target, repl);
    if |s| == 0 {
      assert r == [];
    } else if OccursAt(s, target, 0) {
      AvoidsAfterTarget(s, target, repl, p);
    } else {
      AvoidsAfterChar(s, target, repl, p);
    }
  }

  lemma {:induction false} AvoidsAfterTarget(s: string, target: string, repl: string, p: string)
    requires |target| > 0 && |repl| > 0 && |p| > 0
    requires p[0] !in repl && repl[0] !in p[1..]
    requires p == target || !Contains(s, p)
    requires |s| > 0 && OccursAt(s, target, 0)
    ensures !Contains(ReplaceAll(s, target, repl), p)
    decreases |s|, 0
  {
    var rest := s[|target|..];
    if p != target {
      ContainsSuffix(s, |target|, p);
    }
    ReplaceAllAvoids(rest, target, repl, p);
    var tail := ReplaceAll(rest, target, repl);
    var r := ReplaceAll(s, target, repl);
    assert r == repl + tail;
    forall i: nat | i <= |r|
      ensures !OccursAt(r, p, i)
    {
      if i < |repl| {
        assert r[i] == repl[i];
        assert repl[i] in repl;
      } else {
        OccursShift(repl, tail, p, i - |repl|);
      }
    }
  }

  lemma {:induction false} AvoidsAfterChar(s: string, target: string, repl: string, p: string)
    requires |target| > 0 && |repl| > 0 && |p| > 0
    requires p[0] !in repl && repl[0] !in p[1..]
    requires p == target || !Contains(s, p)
    requires |s| > 0 && !OccursAt(s, target, 0)
    ensures !Contains(ReplaceAll(s, target, repl), p)
    decreases |s|, 0
  {
    if p != target {
      ContainsSuffix(s, 1, p);
    }
    ReplaceAllAvoids(s[1..], target, repl, p);
    var tail := ReplaceAll(s[1..], target, repl);
    var r := ReplaceAll(s, target, repl);
    var c := [s[0]];
    assert r == c + tail;
    PrefixPreimage(s[1..], target, repl, p[1..]);
    forall i: nat | i <= |r|
      ensures !OccursAt(r, p, i)
    {
      if i == 0 {
        ConsPreimage(s, tail, p);
      } else {
        OccursShift(c, tail, p, i - 1);
      }
    }
  }

  /** An occurrence at the front of `[s[0]] + tail` comes from one at the
      front of `s`, when occurrences of the rest of `p` at the front of `tail`
      come from occurrences at the front of `s[1..]`. */
  lemma ConsPreimage(s: string, tail: string, p: string)
    requires |s| > 0 && |p| > 0
    requires OccursAt(tail, p[1..], 0) ==> OccursAt(s[1..], p[1..], 0)
    ensures OccursAt([s[0]] + tail, p, 0) ==> OccursAt(s, p, 0)
  {
    var r := [s[0]] + tail;
    if OccursAt(r, p, 0) {
      forall k | 0 <= k < |p| - 1
        ensures tail[k] == p[1..][k]
      {
        assert r[k + 1] == p[k + 1];
      }
      assert OccursAt(tail, p[1..], 0);
      forall k | 0 <= k < |p|
        ensures s[k] == p[k]
      {
        if k > 0 {
          assert s[1..][k - 1] == p[1..][k - 1];
        }
      }
    }
  }

  /** An `https://` endpoint becomes the matching `wss://` endpoint. */
  lemma WsUrlFromHttps(rest: string, send: string)
    requires !Contains(rest, "http://") && !Contains(rest, "https://")
    ensures GetWsUrl(Config("https://" + rest, "", send)) == "wss://" + rest
  {
    var a := "https://";
    forall i: nat | i < |a|
      ensures !OccursAt(a + rest, "http://", i)
    {
      if i == 0 {
        assert (a + rest)[4] == 's';
        assert "http://"[4] == ':';
      } else {
        assert a[1..] == "ttps://";
        assert a[i] in a[1..];
        assert (a + rest)[i] == a[i];
        assert "http://"[0] == 'h';
      }
    }
    ReplaceAllSkipsPrefix(a, rest, "http://", "ws://");
    ReplaceAllIdentity(rest, "http://", "ws://");
    ReplaceAllIdentity(rest, "https://", "wss://");
    assert a <= a + rest;
    assert (a + rest)[|a|..] == rest;
  }

  /** An `http://` endpoint becomes the matching `ws://` endpoint. */
  lemma WsUrlFromHttp(rest: string, send: string)
    requires !Contains(rest, "http://") && !Contains(rest, "https://")
    ensures GetWsUrl(Config("http://" + rest, "", send)) == "ws://" + rest
  {
    var a := "http://";
    assert a <= a + rest;
    assert (a + rest)[|a|..] == rest;
    ReplaceAllIdentity(rest, "http://", "ws://");
    var w := "ws://";
    forall i: nat | i < |w|
      ensures !OccursAt(w + rest, "https://", i)
    {
      assert w[i] in w;
      assert (w + rest)[i] == w[i];
      assert "https://"[0] == 'h';
    }
    ReplaceAllSkipsPrefix(w, rest, "https://", "wss://");
    ReplaceAllIdentity(rest, "https://", "wss://");
  }
}
