/** The server's list of connections (client_db.cpp). */
module ClientDbs {
  import opened Bytes
  import opened Registry
  import opened MsgDelimiters

  /** std::list::remove. */
  function Without<C(==)>(s: seq<C>, c: C): seq<C> {
    if s == [] then [] else if s[0] == c then Without(s[1..], c) else [s[0]] + Without(s[1..], c)
  }

  lemma {:induction false} WithoutAbsent<C>(s: seq<C>, c: C)
    requires c !in s
    ensures Without(s, c) == s
  {
    if s != [] {
      WithoutAbsent(s[1..], c);
    }
  }

  lemma WithoutHead<C>(s: seq<C>)
    requires s != [] && NoDuplicates(s)
    ensures Without(s, s[0]) == s[1..]
  {
    WithoutAbsent(s[1..], s[0]);
  }

  /** The order in which Purge aborts connections: the iterator at client_db.cpp:75 is read before it is advanced,
      so the first one comes twice and the last one not at all. */
  function PurgeOrder<C>(s: seq<C>): seq<C> {
    if s == [] then [] else [s[0]] + s[..|s| - 1]
  }

  lemma PurgeStep<C>(s: seq<C>, it: nat)
    requires it < |s|
    ensures PurgeOrder(s)[..it + 1] == PurgeOrder(s)[..it] + [s[if it == 0 then 0 else it - 1]]
  {
  }

  lemma {:induction false} CountOnce<C>(s: seq<C>, c: C)
    requires NoDuplicates(s)
    ensures multiset(s)[c] == if c in s then 1 else 0
    decreases |s|
  {
    if s != [] {
      assert s == [s[0]] + s[1..];
      CountOnce(s[1..], c);
    }
  }

  /** Of two or more connections the first is aborted twice, the last never, and every other once. */
  lemma PurgeCounts<C>(s: seq<C>, c: C)
    requires NoDuplicates(s) && |s| >= 2 && c in s
    ensures multiset(PurgeOrder(s))[c] == if c == s[0] then 2 else if c == s[|s| - 1] then 0 else 1
  {
    var firsts, last := s[..|s| - 1], s[|s| - 1];
    assert s == firsts + [last];
    CountOnce(firsts, c);
    assert multiset(PurgeOrder(s)) == multiset([s[0]]) + multiset(firsts);
    assert s[0] == firsts[0];
  }

  /** Purge aborts every connection exactly once if and only if there is at most one. */
  lemma PurgeOnceIff<C>(s: seq<C>)
    requires NoDuplicates(s)
    ensures multiset(PurgeOrder(s)) == multiset(s) <==> |s| <= 1
  {
    if |s| > 1 {
      var last := s[|s| - 1];
      assert last in multiset(s);
      assert last !in PurgeOrder(s);
      assert last !in multiset(PurgeOrder(s));
    } else if |s| == 1 {
      assert PurgeOrder(s) == s;
    }
  }

  class ClientDB {
    var clients: seq<TcpClient>
    var aborted: seq<TcpClient>  // the calls of TcpClient::Abort so far

    constructor ()
      ensures clients == [] && aborted == []
    {
      clients, aborted := [], [];
    }

    method Update(client: TcpClient)
      modifies this`clients
      ensures clients == old(clients) + [client]
    {
      clients := clients + [client];
    }

    /** Appends every connection to `list`, in order. */
    method Copy(list: seq<TcpClient>) returns (r: seq<TcpClient>)
      ensures r == list + clients
    {
      r := list;
      for it := 0 to |clients|
        invariant r == list + clients[..it]
      {
        r := r + [clients[it]];
      }
    }

    method Purge()
      requires NoDuplicates(clients)
      modifies this
      ensures aborted == old(aborted) + PurgeOrder(old(clients))
      ensures |aborted| == |old(aborted)| + |old(clients)|
      ensures var now := aborted[|old(aborted)|..];
              forall i :: 0 <= i < |now| ==> now[i] == old(clients)[if i == 0 then 0 else i - 1]
      ensures clients == if |old(clients)| <= 1 then [] else [old(clients)[|old(clients)| - 1]]
    {
      if clients == [] {
        return;
      }
      var nodes, it := clients, 0;
      var client := nodes[0];
      while it < |nodes|
        invariant it <= |nodes|
        invariant client == nodes[if it == 0 then 0 else it - 1]
        invariant clients == if it <= 1 then nodes[it..] else nodes[it - 1..]
        invariant aborted == old(aborted) + PurgeOrder(nodes)[..it]
      {
        PurgeStep(nodes, it);
        Assoc(old(aborted), PurgeOrder(nodes)[..it], [client]);
        var nextClient := nodes[it];
        it := it + 1;
        assert it == 2 ==> client !in clients;
        if client !in clients {
          WithoutAbsent(clients, client);
        } else {
          WithoutHead(clients);
        }
        clients := Without(clients, client);
        aborted := aborted + [client];
        client := nextClient;
      }
      assert PurgeOrder(nodes)[..|nodes|] == PurgeOrder(nodes);
      assert aborted[|old(aborted)|..] == PurgeOrder(nodes);
    }
  }
}
