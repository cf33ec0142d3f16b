/** The per-address sliding-window limiter that the matches and quest-search
    routes each define (identically): at most 20 hits per address in any
    60-second window, kept in a process-wide map from address to hit times.
    The clock reading is a parameter. */
module RateLimit {
  import opened Base
  import opened Text

  const Limit := 20
  const WindowMs := 60000

  /** `s.split(",")[0]`: the text before the first comma. */
  function FirstField(s: string): (r: string)
    ensures IsPrefix(r, s)
    ensures forall i | 0 <= i < |r| :: r[i] != ','
    ensures |r| < |s| ==> s[|r|] == ','
    decreases |s|
  {
    if s == [] || s[0] == ',' then [] else [s[0]] + FirstField(s[1..])
  }

  /** `getClientIp`, from the `x-forwarded-for` and `cf-connecting-ip`
      headers (None when absent). Never empty: the trimmed first
      forwarded address when there is one, else a non-empty
      `cf-connecting-ip`, else "anon". */
  function ClientIp(xff: Option<string>, cf: Option<string>): (r: string)
    ensures r != []
    ensures var ip := Trim(FirstField(if Truthy(xff) then xff.value else ""));
      && (ip != [] ==> r == ip && IsTrimmed(r) && forall i | 0 <= i < |r| :: r[i] != ',')
      && (ip == [] && Truthy(cf) ==> r == cf.value)
      && (ip == [] && !Truthy(cf) ==> r == "anon")
  {
    var xf := if Truthy(xff) then xff.value else "";
    var ip := Trim(FirstField(xf));
    if ip != [] then ip else if Truthy(cf) then cf.value else "anon"
  }

  /** `arr.filter((t) => now - t < WINDOW)`: the hits still inside the
      window, in their order. */
  function Fresh(arr: seq<int>, now: int): (r: seq<int>)
    ensures |r| <= |arr|
    ensures forall i | 0 <= i < |r| :: now - r[i] < WindowMs && r[i] in arr
    ensures forall i | 0 <= i < |arr| :: now - arr[i] < WindowMs ==> arr[i] in r
  {
    Filter(arr, (t: int) => now - t < WindowMs)
  }

  /** `rlStore.get(ip) ?? []`. */
  function Recorded(m: map<string, seq<int>>, ip: string): seq<int> {
    if ip in m then m[ip] else []
  }

  class RateLimiter {
    var store: map<string, seq<int>>

    /** No address ever has more than `Limit` recorded hits. */
    ghost predicate Valid()
      reads this
    {
      forall ip | ip in store :: |store[ip]| <= Limit
    }

    constructor ()
      ensures Valid() && store == map[]
    {
      store := map[];
    }

    /** `hitRateLimit`: with `Limit` or more hits of the caller's address
        still in the window, deny and record nothing (not even the
        pruning); otherwise keep only the hits in the window, append `now`,
        and permit. Other addresses are untouched. */
    method Hit(xff: Option<string>, cf: Option<string>, now: int) returns (limited: bool)
      requires Valid()
      modifies this
      ensures Valid()
      ensures var ip := ClientIp(xff, cf);
        var live := Fresh(Recorded(old(store), ip), now);
        && (limited <==> |live| >= Limit)
        && (limited ==> store == old(store))
        && (!limited ==> store == old(store)[ip := live + [now]])
    {
      var ip := ClientIp(xff, cf);
      var arr := Recorded(store, ip);
      var live := Fresh(arr, now);
      if |live| >= Limit { return true; }
      live := live + [now];
      store := store[ip := live];
      return false;
    }
  }

  /** After a permitted hit, the caller's list holds at most `Limit` times,
      all inside the window that ends at `now`, the last one being `now`. */
  lemma PermittedHitIsInWindow(m: map<string, seq<int>>, ip: string, now: int)
    requires |Fresh(Recorded(m, ip), now)| < Limit
    ensures var l := Fresh(Recorded(m, ip), now) + [now];
      && 0 < |l| <= Limit && l[|l| - 1] == now
      && forall i | 0 <= i < |l| :: now - l[i] < WindowMs
  {
  }
}
