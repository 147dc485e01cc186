/** The client's routing of reads: a cached host per object, a ranked list of hosts, and the retry loop. */
module ClientRouting {
  import opened Paging

  type Host = string

  datatype Option<T> = None | Some(value: T)

  /** The answer of a host to one attempt: content, or nothing when the call failed or was not Ok. */
  type Answers = (nat, Host) -> Option<Bytes>

  datatype Outcome = Served(attempt: nat, host: Host, content: Bytes) | ContentNotFound | HostNotFound

  /** The ranked host for an attempt, clamped at the last one. */
  function Ranked(top: seq<Host>, attempt: nat): Host
    requires top != []
  {
    top[Min(attempt, |top| - 1)]
  }

  /** What the attempts from `attempt` on come to, starting with a cached host or none. */
  function Attempts(cached: Option<Host>, top: seq<Host>, clients: set<Host>, answers: Answers, attempt: nat,
                    limit: nat): Outcome
    decreases limit - attempt
  {
    if attempt >= limit then ContentNotFound
    else if cached.None? && top == [] then HostNotFound
    else
      var host := if cached.Some? then cached.value else Ranked(top, attempt);
      if host !in clients then HostNotFound
      else match answers(attempt, host)
        case Some(content) => Served(attempt, host, content)
        case None => Attempts(None, top, clients, answers, attempt + 1, limit)
  }

  class BlobCacheClient {
    var localHostCache: map<string, Host>
    var grpcClients: set<Host>
    const minRetryLengthBytes: int
    const maxGetContentAttempts: nat

    constructor (minRetryLengthBytes: int, maxAttempts: int, clients: set<Host>)
      ensures localHostCache == map[] && grpcClients == clients
      ensures this.minRetryLengthBytes == minRetryLengthBytes && maxGetContentAttempts == Max(maxAttempts, 1)
    {
      localHostCache, grpcClients := map[], clients;
      this.minRetryLengthBytes, maxGetContentAttempts := minRetryLengthBytes, Max(maxAttempts, 1);
    }

    function Cached(hash: string): Option<Host>
      reads this
    {
      if hash in localHostCache then Some(localHostCache[hash]) else None
    }

    /** Picks the host of a retrieval and remembers it; a host without a client is forgotten again. */
    method GetClient(hash: string, top: seq<Host>, hostIndex: nat) returns (host: Option<Host>)
      modifies this`localHostCache
      ensures host == if old(Cached(hash)).None? && top == [] then None
                      else var h := if old(Cached(hash)).Some? then old(Cached(hash)).value else Ranked(top, hostIndex);
                           if h in grpcClients then Some(h) else None
      ensures Cached(hash) == host
      ensures localHostCache - {hash} == old(localHostCache) - {hash}
    {
      var h: Host;
      if hash in localHostCache {
        h := localHostCache[hash];
      } else {
        if |top| == 0 {
          return None;
        }
        h := top[Min(hostIndex, |top| - 1)];
        localHostCache := localHostCache[hash := h];
      }
      if h !in grpcClients {
        localHostCache := localHostCache - {hash};
        return None;
      }
      return Some(h);
    }

    function Limit(length: int): nat {
      if length > minRetryLengthBytes then maxGetContentAttempts else 1
    }

    /** The read with retries, undisturbed by other calls. Afterwards the cache maps the hash to the serving host or to
        nothing, and no other entry has changed. */
    method GetContent(hash: string, length: int, top: seq<Host>, answers: Answers) returns (r: Outcome)
      modifies this`localHostCache
      ensures r == Attempts(old(Cached(hash)), top, grpcClients, answers, 0, Limit(length))
      ensures r.Served? ==> Cached(hash) == Some(r.host)
      ensures r.HostNotFound? || (r.ContentNotFound? && Limit(length) > 0) ==> Cached(hash) == None
      ensures localHostCache - {hash} == old(localHostCache) - {hash}
    {
      var maxAttempts := 1;
      if length > minRetryLengthBytes {
        maxAttempts := maxGetContentAttempts;
      }
      for attempt := 0 to maxAttempts
        invariant Attempts(old(Cached(hash)), top, grpcClients, answers, 0, maxAttempts)
               == Attempts(Cached(hash), top, grpcClients, answers, attempt, maxAttempts)
        invariant attempt > 0 ==> Cached(hash) == None
        invariant localHostCache - {hash} == old(localHostCache) - {hash}
      {
        var client := GetClient(hash, top, attempt);
        if client.None? {
          return HostNotFound;
        }
        var response := answers(attempt, client.value);
        if response.Some? {
          return Served(attempt, client.value, response.value);
        }
        localHostCache := localHostCache - {hash};
      }
      return ContentNotFound;
    }
  }

  /** The host that attempt `k` goes to when every host has a client. */
  function Tried(cached: Option<Host>, top: seq<Host>, k: nat): Host
    requires top != []
  {
    if k == 0 && cached.Some? then cached.value else Ranked(top, k)
  }

  /** With a client for every host in question, the attempts go to the cached host, or the first ranked one, and then
      down the ranking, clamped at the last; the outcome is the first good answer in that order, or not-found when
      there is none within the limit. */
  lemma FailoverOrder(cached: Option<Host>, top: seq<Host>, clients: set<Host>, answers: Answers, limit: nat)
    requires top != [] && (forall h :: h in top ==> h in clients) && (cached.Some? ==> cached.value in clients)
    ensures match Attempts(cached, top, clients, answers, 0, limit)
            case Served(k, host, content) =>
              && k < limit && host == Tried(cached, top, k) && answers(k, host) == Some(content)
              && forall j: nat :: j < k ==> answers(j, Tried(cached, top, j)) == None
            case ContentNotFound => forall j: nat :: j < limit ==> answers(j, Tried(cached, top, j)) == None
            case HostNotFound => false
  {
    if limit > 0 && answers(0, Tried(cached, top, 0)).None? {
      RankedOrder(cached, top, clients, answers, 1, limit);
    }
  }

  lemma {:induction false} RankedOrder(cached: Option<Host>, top: seq<Host>, clients: set<Host>, answers: Answers,
                                       attempt: nat, limit: nat)
    requires top != [] && (forall h :: h in top ==> h in clients) && 0 < attempt <= limit
    ensures match Attempts(None, top, clients, answers, attempt, limit)
            case Served(k, host, content) =>
              && attempt <= k < limit && host == Tried(cached, top, k) && answers(k, host) == Some(content)
              && forall j: nat :: attempt <= j < k ==> answers(j, Tried(cached, top, j)) == None
            case ContentNotFound => forall j: nat :: attempt <= j < limit ==> answers(j, Tried(cached, top, j)) == None
            case HostNotFound => false
    decreases limit - attempt
  {
    if attempt < limit {
      RankedOrder(cached, top, clients, answers, attempt + 1, limit);
    }
  }
}
