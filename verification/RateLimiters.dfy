/** The two rate limiters, step by step, each refining the table operations of module Windows. */
module RateLimiters {
  import opened Windows

  /** The timestamps a limiter keeps when it drops the stale ones, in order. */
  method KeepRecent(p: Policy, now: int, timestamps: seq<int>) returns (active: seq<int>)
    ensures active == Prune(p, now, timestamps)
  {
    active := [];
    for i := 0 to |timestamps|
      invariant active == Prune(p, now, timestamps[..i])
    {
      assert timestamps[..i + 1][..i] == timestamps[..i];
      if Recent(p, now, timestamps[i]) {
        active := active + [timestamps[i]];
      }
    }
    assert timestamps[..|timestamps|] == timestamps;
  }

  /** The HTTP middleware: a closed window, and a background evictor. */
  class RequestLimiter {
    const policy: Policy
    var requests: Table

    // The evictor's ticker does not accept a window that is not positive.
    constructor (limit: int, window: int)
      requires window > 0
      ensures policy == Policy(true, limit, window) && requests == map[]
    {
      policy := Policy(true, limit, window);
      requests := map[];
    }

    method Serve(key: string, now: int) returns (allowed: bool)
      modifies this
      ensures allowed == Allows(policy, old(requests), key, now)
      ensures requests == AfterRequest(policy, false, old(requests), key, now)
    {
      var timestamps := if key in requests then requests[key] else [];
      var active := KeepRecent(policy, now, timestamps);
      if |active| >= policy.limit {
        return false;
      }
      requests := requests[key := active + [now]];
      allowed := true;
    }

    /** One tick of the evictor, which goes through the keys in any order. */
    method Evict(now: int)
      modifies this
      ensures requests == AfterEviction(policy, old(requests), now)
    {
      var keys := requests.Keys;
      while keys != {}
        invariant keys <= old(requests).Keys
        invariant forall k :: k in requests ==> k in old(requests)
        invariant forall k :: k in keys ==> k in requests && requests[k] == old(requests)[k]
        invariant forall k :: k in old(requests) && k !in keys ==>
                                (k in requests <==> Prune(policy, now, old(requests)[k]) != [])
        invariant forall k :: k in requests && k !in keys ==> requests[k] == Prune(policy, now, old(requests)[k])
        decreases |keys|
      {
        var k :| k in keys;
        var valid := KeepRecent(policy, now, requests[k]);
        if |valid| == 0 {
          requests := requests - {k};
        } else {
          requests := requests[k := valid];
        }
        keys := keys - {k};
      }
    }
  }

  const MINUTE: int := 60_000_000_000

  /** The SMTP limiter: half-open windows, two tables, and no evictor; a refusal writes the pruned list back. */
  class MemoryRateLimiter {
    const connectionPolicy: Policy
    const messagePolicy: Policy
    var connections: Table
    var messages: Table

    /** Zero asks for the default. */
    constructor (maxConnections: int, maxMessages: int, window: int)
      ensures connections == map[] && messages == map[]
      ensures !connectionPolicy.closed && !messagePolicy.closed
      ensures connectionPolicy.width == messagePolicy.width == if window == 0 then MINUTE else window
      ensures connectionPolicy.limit == if maxConnections == 0 then 50 else maxConnections
      ensures messagePolicy.limit == if maxMessages == 0 then 60 else maxMessages
    {
      var width := if window == 0 then MINUTE else window;
      connectionPolicy := Policy(false, if maxConnections == 0 then 50 else maxConnections, width);
      messagePolicy := Policy(false, if maxMessages == 0 then 60 else maxMessages, width);
      connections := map[];
      messages := map[];
    }

    method AllowConnection(ip: string, now: int) returns (allowed: bool)
      modifies this
      ensures allowed == Allows(connectionPolicy, old(connections), ip, now)
      ensures connections == AfterRequest(connectionPolicy, true, old(connections), ip, now)
      ensures messages == old(messages)
    {
      var valid := KeepRecent(connectionPolicy, now, if ip in connections then connections[ip] else []);
      if |valid| >= connectionPolicy.limit {
        connections := connections[ip := valid];
        return false;
      }
      valid := valid + [now];
      connections := connections[ip := valid];
      allowed := true;
    }

    method AllowMessage(ip: string, now: int) returns (allowed: bool)
      modifies this
      ensures allowed == Allows(messagePolicy, old(messages), ip, now)
      ensures messages == AfterRequest(messagePolicy, true, old(messages), ip, now)
      ensures connections == old(connections)
    {
      var valid := KeepRecent(messagePolicy, now, if ip in messages then messages[ip] else []);
      if |valid| >= messagePolicy.limit {
        messages := messages[ip := valid];
        return false;
      }
      valid := valid + [now];
      messages := messages[ip := valid];
      allowed := true;
    }
  }
}
