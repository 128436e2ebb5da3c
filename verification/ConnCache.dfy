// curl's connection cache, conncache.c and bundles.c: connections to one host form a bundle, found
// by host name. The hash table is a map whose elements an iteration meets in any order.
module ConnCache {
  class Conn {
    const host: string
    var bundle: Bundle?

    constructor (host: string)
      ensures this.host == host && bundle == null
    {
      this.host, bundle := host, null;
    }
  }

  // The cache, seen as the connections of each host.

  type Lists = map<string, seq<Conn>>

  function Without(s: seq<Conn>, c: Conn): (r: seq<Conn>)
    ensures c in s ==> |r| == |s| - 1
    ensures c !in s ==> r == s
    ensures forall d :: d in r ==> d in s
  {
    if s == [] then [] else if s[0] == c then s[1..] else [s[0]] + Without(s[1..], c)
  }

  predicate Distinct(s: seq<Conn>) {
    forall i, j :: 0 <= i < j < |s| ==> s[i] != s[j]
  }

  lemma {:induction false} WithoutKeeps(s: seq<Conn>, c: Conn, d: Conn)
    requires Distinct(s)
    ensures Distinct(Without(s, c))
    ensures d in Without(s, c) <==> d in s && d != c
  {
    if s != [] {
      assert s == [s[0]] + s[1..];
      WithoutKeeps(s[1..], c, d);
      if s[0] != c {
        assert s[0] !in s[1..];
      }
    }
  }

  lemma WithoutLeaves(s: seq<Conn>, c: Conn)
    requires Distinct(s)
    ensures Distinct(Without(s, c)) && forall d :: d in Without(s, c) <==> d in s && d != c
  {
    WithoutKeeps(s, c, c);
    forall d: Conn
      ensures d in Without(s, c) <==> d in s && d != c
    {
      WithoutKeeps(s, c, d);
    }
  }

  function Added(m: Lists, c: Conn): Lists {
    m[c.host := (if c.host in m then m[c.host] else []) + [c]]
  }

  function Removed(m: Lists, c: Conn): Lists {
    if c.host !in m then m
    else
      var rest := Without(m[c.host], c);
      if rest == [] then m - {c.host} else m[c.host := rest]
  }

  /** Adding a connection and removing it again leaves the cache as it was. */
  lemma RemoveUndoesAdd(m: Lists, c: Conn)
    requires forall h :: h in m ==> m[h] != [] && c !in m[h]
    ensures Removed(Added(m, c), c) == m
  {
    var before := if c.host in m then m[c.host] else [];
    WithoutLast(before, c);
    if c.host in m {
      assert Removed(Added(m, c), c) == m[c.host := before];
    } else {
      assert Added(m, c) - {c.host} == m;
    }
  }

  lemma {:induction false} WithoutLast(s: seq<Conn>, c: Conn)
    requires c !in s
    ensures Without(s + [c], c) == s
  {
    if s != [] {
      assert (s + [c])[1..] == s[1..] + [c];
      WithoutLast(s[1..], c);
    }
  }

  /** The number of connections in all lists. */
  ghost function Total(m: Lists): nat {
    if m == map[] then 0 else
      var h :| h in m;
      |m[h]| + Total(m - {h})
  }

  lemma {:induction false} TotalWithout(m: Lists, h: string)
    requires h in m
    ensures Total(m) == |m[h]| + Total(m - {h})
    decreases |m|
  {
    var k :| k in m && Total(m) == |m[k]| + Total(m - {k});
    if k != h {
      TotalWithout(m - {k}, h);
      TotalWithout(m - {h}, k);
      assert m - {k} - {h} == m - {h} - {k};
    }
  }

  lemma TotalReplaced(m: Lists, h: string, s: seq<Conn>)
    ensures Total(m[h := s]) == Total(m - {h}) + |s|
    ensures Total(m - {h}) == Total(m) - if h in m then |m[h]| else 0
  {
    TotalWithout(m[h := s], h);
    assert m[h := s] - {h} == m - {h};
    if h in m {
      TotalWithout(m, h);
    } else {
      assert m - {h} == m;
    }
  }

  class Bundle {
    var numConnections: nat
    var connList: seq<Conn>

    constructor ()
      ensures numConnections == 0 && connList == []
    {
      numConnections, connList := 0, [];
    }

    /** Curl_bundle_add_conn; `room` says whether a list element can be allocated. */
    method AddConn(conn: Conn, room: bool) returns (ok: bool)
      modifies this, conn`bundle
      ensures ok == room
      ensures ok ==>
                connList == old(connList) + [conn] && numConnections == old(numConnections) + 1 && conn.bundle == this
      ensures !ok ==>
                connList == old(connList) && numConnections == old(numConnections) && conn.bundle == old(conn.bundle)
    {
      if !room {
        return false;
      }
      connList := connList + [conn];
      conn.bundle := this;
      numConnections := numConnections + 1;
      return true;
    }

    /** Curl_bundle_remove_conn. */
    method RemoveConn(conn: Conn) returns (removed: bool)
      requires numConnections == |connList|
      modifies this, conn`bundle
      ensures removed <==> conn in old(connList)
      ensures connList == Without(old(connList), conn) && numConnections == |connList|
      ensures conn.bundle == if removed then null else old(conn.bundle)
    {
      var i := 0;
      while i < |connList|
        invariant i <= |connList| && connList == old(connList) && numConnections == |connList|
        invariant conn.bundle == old(conn.bundle) && conn !in connList[..i]
      {
        if connList[i] == conn {
          WithoutAt(connList, i);
          connList := connList[..i] + connList[i + 1..];
          numConnections := numConnections - 1;
          conn.bundle := null;
          return true;
        }
        assert connList[..i + 1] == connList[..i] + [connList[i]];
        i := i + 1;
      }
      assert connList[..i] == connList;
      return false;
    }
  }

  lemma {:induction false} WithoutAt(s: seq<Conn>, i: nat)
    requires i < |s| && s[i] !in s[..i]
    ensures Without(s, s[i]) == s[..i] + s[i + 1..]
  {
    if i > 0 {
      assert s[0] == s[..i][0] && s[..i] == [s[0]] + s[1..][..i - 1];
      WithoutAt(s[1..], i - 1);
    }
  }

  class ConnCache {
    var hash: map<string, Bundle>
    var numConnections: int

    ghost function Contents(): Lists
      reads this, hash.Values
    {
      map h | h in hash :: hash[h].connList
    }

    /** One bundle of the index: never empty, counted right, and named by its own connections only. */
    ghost predicate BundleOk(h: string, known: set<Conn>)
      requires h in hash
      reads this, hash.Values, known
    {
      var b := hash[h];
      && b.connList != [] && b.numConnections == |b.connList| && Distinct(b.connList)
      && forall c :: c in b.connList ==> c in known && c.host == h && c.bundle == b
    }

    /** The invariant, over all connections that exist. A connection is in a bundle exactly when its
        back pointer names that bundle, and then the bundle is the one indexed for its host. */
    ghost predicate Valid(known: set<Conn>)
      reads this, hash.Values, known
    {
      && (forall h, k :: h in hash && k in hash && hash[h] == hash[k] ==> h == k)
      && (forall h :: h in hash ==> BundleOk(h, known))
      && (forall c :: c in known && c.bundle != null ==>
            c.host in hash && hash[c.host] == c.bundle && c in hash[c.host].connList)
      && numConnections == Total(Contents())
    }

    constructor ()
      ensures Valid({}) && Contents() == map[] && numConnections == 0 && hash == map[]
    {
      hash, numConnections := map[], 0;
      new;
      assert Contents() == map[];
    }

    method FindBundle(hostname: string) returns (bundle: Bundle?)
      ensures if hostname in hash then bundle == hash[hostname] else bundle == null
    {
      bundle := if hostname in hash then hash[hostname] else null;
    }

    /** conncache_remove_bundle: looks for the element that holds the bundle. */
    method RemoveBundle(bundle: Bundle, ghost host: string)
      requires host in hash && hash[host] == bundle
      requires forall h :: h in hash && hash[h] == bundle ==> h == host
      modifies this`hash
      ensures hash == old(hash) - {host}
    {
      var rest := hash.Keys;
      while rest != {}
        invariant rest <= hash.Keys && hash == old(hash)
        invariant host in rest
        decreases |rest|
      {
        var he :| he in rest;
        if hash[he] == bundle {
          hash := hash - {he};
          return;
        }
        rest := rest - {he};
      }
    }

    /** The first half of adding: the bundle of the host, created and indexed if there is none. */
    method FindOrCreate(host: string, created: bool, indexed: bool, ghost known: set<Conn>)
      returns (bundle: Bundle?, isNew: bool)
      requires Valid(known)
      modifies this`hash
      ensures bundle != null ==>
        bundle.numConnections == |bundle.connList| && forall h :: h in old(hash) && h != host ==> old(hash)[h] != bundle
      ensures isNew <==> bundle != null && host !in old(hash)
      ensures bundle == null ==> hash == old(hash) && host !in hash && !(created && indexed)
      ensures bundle != null ==> hash == old(hash)[host := bundle]
      ensures bundle != null && host in old(hash) ==> bundle == old(hash)[host]
      ensures bundle != null && host !in old(hash) ==>
        created && indexed && fresh(bundle) && bundle.connList == [] && bundle.numConnections == 0
    {
      bundle := FindBundle(host);
      isNew := false;
      assert host in hash ==> BundleOk(host, known);
      if bundle == null {
        if !created {
          return;
        }
        var newBundle := new Bundle();
        if !indexed {
          return;
        }
        hash := hash[host := newBundle];
        bundle, isNew := newBundle, true;
      }
    }

    /** What adding to `bundle` leaves of the heap. */
    twostate predicate AddedTo(new conn: Conn, new bundle: Bundle, known: set<Conn>)
      reads this, hash.Values, bundle, known, conn
    {
      var host := conn.host;
      && conn.bundle == bundle && hash == old(hash)[host := bundle]
      && bundle !in (old(hash) - {host}).Values
      && (host in old(hash) ==> bundle == old(hash)[host])
      && bundle.connList == (if host in old(hash) then old(hash[host].connList) else []) + [conn]
      && bundle.numConnections == |bundle.connList|
      && (forall h :: h in hash && h != conn.host ==>
            hash[h].connList == old(hash[h].connList) && hash[h].numConnections == old(hash[h].numConnections))
      && (forall c :: c in known && c != conn ==> c.bundle == old(c.bundle))
    }

    twostate lemma AddedContents(new conn: Conn, new bundle: Bundle, known: set<Conn>)
      requires AddedTo(conn, bundle, known)
      ensures Contents() == Added(old(Contents()), conn)
      ensures Total(Contents()) == Total(old(Contents())) + 1
    {
      assert Contents() == Added(old(Contents()), conn);
      TotalReplaced(old(Contents()), conn.host, Contents()[conn.host]);
    }

    twostate lemma AddedBundles(new conn: Conn, new bundle: Bundle, known: set<Conn>)
      requires old(allocated(conn)) && old(Valid(known)) && old(conn.bundle) == null && AddedTo(conn, bundle, known)
      ensures forall h :: h in hash ==> BundleOk(h, known + {conn})
    {
      forall h | h in hash
        ensures BundleOk(h, known + {conn})
      {
        assert h in old(hash) ==> old(BundleOk(h, known));
        assert h in old(hash) ==> conn !in old(hash[h].connList);
        forall c | c in hash[h].connList
          ensures c in known + {conn} && c.host == h && c.bundle == hash[h]
        {
          assert c != conn ==> h in old(hash) && c in old(hash[h].connList);
          assert h == conn.host || c != conn;
        }
      }
    }

    twostate lemma AddedPointers(new conn: Conn, new bundle: Bundle, known: set<Conn>)
      requires old(allocated(conn)) && old(Valid(known)) && old(conn.bundle) == null && AddedTo(conn, bundle, known)
      ensures forall h, k :: h in hash && k in hash && hash[h] == hash[k] ==> h == k
      ensures forall c :: c in known + {conn} && c.bundle != null ==>
        c.host in hash && hash[c.host] == c.bundle && c in hash[c.host].connList
    {
    }

    twostate lemma AddKeepsValid(new conn: Conn, new bundle: Bundle, known: set<Conn>)
      requires old(allocated(conn)) && old(Valid(known)) && old(conn.bundle) == null && AddedTo(conn, bundle, known)
      requires numConnections == old(numConnections) + 1
      ensures Valid(known + {conn}) && Contents() == Added(old(Contents()), conn)
    {
      AddedContents(conn, bundle, known);
      AddedBundles(conn, bundle, known);
      AddedPointers(conn, bundle, known);
    }

    twostate lemma RefusedKeepsValid(new conn: Conn, known: set<Conn>)
      requires old(allocated(conn)) && old(Valid(known)) && conn.bundle == null == old(conn.bundle)
      requires hash == old(hash) && numConnections == old(numConnections)
      requires forall h :: h in hash ==>
        hash[h].connList == old(hash[h].connList) && hash[h].numConnections == old(hash[h].numConnections)
      requires forall c :: c in known && c != conn ==> c.bundle == old(c.bundle)
      ensures Valid(known + {conn}) && Contents() == old(Contents())
    {
      assert Contents() == old(Contents());
      forall h | h in hash
        ensures BundleOk(h, known + {conn})
      {
        assert old(BundleOk(h, known));
      }
    }

    /** Curl_conncache_add_conn, for a connection in no bundle. The flags say which allocations
        succeed: of the bundle, of its place in the index, of its place in the list. */
    method AddConn(conn: Conn, created: bool, indexed: bool, room: bool, ghost known: set<Conn>) returns (ok: bool)
      requires Valid(known) && conn.bundle == null
      modifies this, hash.Values, conn`bundle
      ensures Valid(known + {conn}) && fresh(hash.Values - old(hash.Values))
      ensures ok <==> (conn.host in old(hash) || (created && indexed)) && room
      ensures Contents() == if ok then Added(old(Contents()), conn) else old(Contents())
      ensures numConnections == old(numConnections) + if ok then 1 else 0
      ensures ok <==> conn.bundle != null
    {
      var bundle, isNew := FindOrCreate(conn.host, created, indexed, known);
      if bundle == null {
        RefusedKeepsValid(conn, known);
        return false;
      }
      ok := bundle.AddConn(conn, room);
      if ok {
        numConnections := numConnections + 1;
        AddKeepsValid(conn, bundle, known);
        return;
      }
      if isNew {
        RemoveBundle(bundle, conn.host);
      }
      assert hash == old(hash);
      RefusedKeepsValid(conn, known);
    }

    // Removing.

    twostate predicate RemovedFrom(new conn: Conn, new bundle: Bundle, known: set<Conn>)
      reads this, hash.Values, bundle, known, conn
    {
      && conn.host in old(hash) && bundle == old(hash)[conn.host] && conn.bundle == null
      && bundle.connList == Without(old(bundle.connList), conn) && bundle.numConnections == |bundle.connList|
      && hash == (if bundle.connList == [] then old(hash) - {conn.host} else old(hash))
      && (forall h :: h in hash && h != conn.host ==>
            hash[h].connList == old(hash[h].connList) && hash[h].numConnections == old(hash[h].numConnections))
      && (forall c :: c in known && c != conn ==> c.bundle == old(c.bundle))
    }

    twostate lemma RemovedContents(new conn: Conn, new bundle: Bundle, known: set<Conn>)
      requires RemovedFrom(conn, bundle, known) && conn in old(bundle.connList)
      ensures Contents() == Removed(old(Contents()), conn)
      ensures Total(Contents()) == Total(old(Contents())) - 1
    {
      var before := old(Contents());
      assert Contents() == Removed(before, conn);
      TotalReplaced(before, conn.host, Without(before[conn.host], conn));
    }

    twostate lemma RemovedBundles(new conn: Conn, new bundle: Bundle, known: set<Conn>)
      requires old(Valid(known)) && RemovedFrom(conn, bundle, known)
      ensures forall h :: h in hash ==> BundleOk(h, known)
    {
      var host := conn.host;
      assert old(BundleOk(host, known));
      WithoutLeaves(old(bundle.connList), conn);
      forall h | h in hash
        ensures BundleOk(h, known)
      {
        assert old(BundleOk(h, known));
        assert h != conn.host ==> conn !in hash[h].connList;
      }
    }

    twostate lemma RemoveKeepsValid(new conn: Conn, new bundle: Bundle, known: set<Conn>)
      requires old(Valid(known)) && conn in known && RemovedFrom(conn, bundle, known) && conn in old(bundle.connList)
      requires numConnections == old(numConnections) - 1
      ensures Valid(known) && Contents() == Removed(old(Contents()), conn)
    {
      RemovedContents(conn, bundle, known);
      RemovedBundles(conn, bundle, known);
      assert old(BundleOk(conn.host, known));
      WithoutLeaves(old(bundle.connList), conn);
    }

    /** Curl_conncache_remove_conn. A connection that is in no bundle is left alone. */
    method RemoveConn(conn: Conn, ghost known: set<Conn>)
      requires Valid(known) && conn in known
      modifies this, hash.Values, conn`bundle
      ensures Valid(known) && conn.bundle == null && hash.Values <= old(hash.Values)
      ensures Contents() == if old(conn.bundle) == null then old(Contents()) else Removed(old(Contents()), conn)
      ensures numConnections == old(numConnections) - if old(conn.bundle) == null then 0 else 1
    {
      var bundle := conn.bundle;
      if bundle != null {
        assert BundleOk(conn.host, known);
        var removed := bundle.RemoveConn(conn);
        if bundle.numConnections == 0 {
          RemoveBundle(bundle, conn.host);
        }
        numConnections := numConnections - 1;
        RemoveKeepsValid(conn, bundle, known);
      }
    }

    /** The iteration of Curl_conncache_find_first_connection. */
    method FirstListed() returns (conn: Conn?)
      ensures conn == null ==> forall h :: h in hash ==> hash[h].connList == []
      ensures conn != null ==> exists h :: h in hash && conn in hash[h].connList
    {
      var rest := hash.Keys;
      while rest != {}
        invariant rest <= hash.Keys
        invariant forall h :: h in hash && h !in rest ==> hash[h].connList == []
        decreases |rest|
      {
        var he :| he in rest;
        var bundle := hash[he];
        if bundle.connList != [] {
          return bundle.connList[0];
        }
        rest := rest - {he};
      }
      return null;
    }

    lemma EmptyOrListed(known: set<Conn>)
      requires Valid(known)
      ensures hash == map[] || exists h :: h in hash && hash[h].connList != []
    {
      if hash != map[] {
        var h :| h in hash;
        assert BundleOk(h, known);
      }
    }

    /** A first connection is found exactly when the count is positive. */
    method FindFirstConnection(ghost known: set<Conn>) returns (conn: Conn?)
      requires Valid(known)
      ensures conn == null <==> numConnections == 0
      ensures numConnections >= 0
      ensures conn != null ==>
                conn in known && conn.host in hash && conn in hash[conn.host].connList && conn.bundle != null
    {
      conn := FirstListed();
      if conn != null {
        ghost var h :| h in hash && conn in hash[h].connList;
        assert BundleOk(h, known);
        TotalWithout(Contents(), h);
      } else {
        EmptyOrListed(known);
        assert Contents() == map[];
      }
    }
  }
}
