/** The network interface of src/network_interface.cc: a table whose entries point into two queues sorted
    by time, proved to agree with the timed map of `ArpModel`. A pointer to a queue node is the node's
    identity: its position counted from the first node ever appended, so it stays the same while nodes
    leave at the front and join at the back. */
module NetworkInterfaces {
  import opened Words
  import opened ArpModel

  datatype Node<V> = Node(ip: U32, value: V, at: nat)

  /** Every node is pointed to by its own address. */
  ghost predicate Owned<V>(queue: seq<Node<V>>, front: nat, pointers: map<U32, nat>) {
    forall i :: 0 <= i < |queue| ==> queue[i].ip in pointers && pointers[queue[i].ip] == front + i
  }

  /** The pointer `p` leads to that node, which is still in the queue. */
  ghost predicate LeadsTo<V>(queue: seq<Node<V>>, front: nat, p: nat, node: Node<V>) {
    front <= p < front + |queue| && queue[p - front] == node
  }

  /** The queue read as a map: every pointer leads to the node of its address. */
  ghost predicate Viewed<V>(queue: seq<Node<V>>, front: nat, pointers: map<U32, nat>, view: map<U32, Node<V>>) {
    view.Keys == pointers.Keys && forall ip :: ip in view ==> view[ip].ip == ip && LeadsTo(queue, front, pointers[ip], view[ip])
  }

  ghost predicate Sorted<V>(queue: seq<Node<V>>) {
    forall i, j :: 0 <= i < j < |queue| ==> queue[i].at <= queue[j].at
  }

  ghost predicate Linked<V>(queue: seq<Node<V>>, front: nat, pointers: map<U32, nat>, view: map<U32, Node<V>>) {
    Owned(queue, front, pointers) && Viewed(queue, front, pointers, view) && Sorted(queue)
  }

  /** Each node of the queue is the one in the map. */
  lemma NodeIsViewed<V>(queue: seq<Node<V>>, front: nat, pointers: map<U32, nat>, view: map<U32, Node<V>>, i: nat)
    requires Owned(queue, front, pointers) && Viewed(queue, front, pointers, view) && i < |queue|
    ensures queue[i].ip in pointers && pointers[queue[i].ip] == front + i
    ensures queue[i].ip in view && view[queue[i].ip] == queue[i]
  {
    var ip := queue[i].ip;
    assert ip in pointers && pointers[ip] == front + i;
    hide Owned;
    assert ip in pointers.Keys && ip in view;
    assert LeadsTo(queue, front, pointers[ip], view[ip]);
  }

  lemma PointerIsLive<V>(queue: seq<Node<V>>, front: nat, pointers: map<U32, nat>, view: map<U32, Node<V>>, ip: U32)
    requires Viewed(queue, front, pointers, view) && ip in view
    ensures ip in pointers && front <= pointers[ip] < front + |queue| && queue[pointers[ip] - front] == view[ip]
  {
    assert ip in pointers.Keys;
    assert LeadsTo(queue, front, pointers[ip], view[ip]);
  }

  // ----- a node joins at the back -----

  lemma AppendingOwned<V>(queue: seq<Node<V>>, front: nat, pointers: map<U32, nat>, node: Node<V>)
    requires Owned(queue, front, pointers) && node.ip !in pointers
    ensures Owned(queue + [node], front, pointers[node.ip := front + |queue|])
  {
    var q, p := queue + [node], pointers[node.ip := front + |queue|];
    forall i | 0 <= i < |q|
      ensures q[i].ip in p && p[q[i].ip] == front + i
    {
      if i < |queue| {
        assert q[i] == queue[i];
      }
    }
  }

  lemma LeadsOn<V>(queue: seq<Node<V>>, front: nat, p: nat, node: Node<V>, last: Node<V>)
    requires LeadsTo(queue, front, p, node)
    ensures LeadsTo(queue + [last], front, p, node)
  {
  }

  lemma LeadsToLast<V>(queue: seq<Node<V>>, front: nat, last: Node<V>)
    ensures LeadsTo(queue + [last], front, front + |queue|, last)
  {
  }

  lemma AppendingViewed<V>(queue: seq<Node<V>>, front: nat, pointers: map<U32, nat>, view: map<U32, Node<V>>, node: Node<V>)
    requires Viewed(queue, front, pointers, view) && node.ip !in pointers
    ensures Viewed(queue + [node], front, pointers[node.ip := front + |queue|], view[node.ip := node])
  {
    hide LeadsTo;
    var q, p, v := queue + [node], pointers[node.ip := front + |queue|], view[node.ip := node];
    assert v.Keys == view.Keys + {node.ip} == p.Keys;
    forall ip | ip in v
      ensures v[ip].ip == ip && LeadsTo(q, front, p[ip], v[ip])
    {
      if ip == node.ip {
        LeadsToLast(queue, front, node);
      } else {
        assert ip in view.Keys;
        LeadsOn(queue, front, pointers[ip], view[ip], node);
      }
    }
  }

  lemma AppendingSorted<V>(queue: seq<Node<V>>, node: Node<V>)
    requires Sorted(queue) && forall i :: 0 <= i < |queue| ==> queue[i].at <= node.at
    ensures Sorted(queue + [node])
  {
  }

  lemma Appending<V>(queue: seq<Node<V>>, front: nat, pointers: map<U32, nat>, view: map<U32, Node<V>>, node: Node<V>)
    requires Linked(queue, front, pointers, view) && node.ip !in pointers
    requires forall ip :: ip in view ==> view[ip].at <= node.at
    ensures Linked(queue + [node], front, pointers[node.ip := front + |queue|], view[node.ip := node])
  {
    hide Owned, Viewed, Sorted;
    forall i | 0 <= i < |queue|
      ensures queue[i].at <= node.at
    {
      NodeIsViewed(queue, front, pointers, view, i);
    }
    AppendingOwned(queue, front, pointers, node);
    AppendingViewed(queue, front, pointers, view, node);
    AppendingSorted(queue, node);
  }

  // ----- the node at the front leaves -----

  /** The pointers without the one of the node that leaves. */
  ghost predicate Without<V>(m: map<U32, V>, ip: U32, rest: map<U32, V>) {
    && (forall i :: i in rest <==> i in m && i != ip)
    && (forall i :: i in rest ==> rest[i] == m[i])
  }

  lemma PoppingOwned<V>(queue: seq<Node<V>>, front: nat, pointers: map<U32, nat>, rest: map<U32, nat>)
    requires Owned(queue, front, pointers) && queue != [] && Without(pointers, queue[0].ip, rest)
    ensures Owned(queue[1..], front + 1, rest)
  {
    var q := queue[1..];
    forall i | 0 <= i < |q|
      ensures q[i].ip in rest && rest[q[i].ip] == front + 1 + i
    {
      assert q[i] == queue[i + 1];
      assert pointers[queue[i + 1].ip] == front + (i + 1);
      assert pointers[queue[0].ip] == front;
    }
  }

  lemma LeadsBehind<V>(queue: seq<Node<V>>, front: nat, p: nat, node: Node<V>)
    requires LeadsTo(queue, front, p, node) && queue != [] && node.ip != queue[0].ip
    ensures LeadsTo(queue[1..], front + 1, p, node)
  {
  }

  lemma PoppingViewed<V>(queue: seq<Node<V>>, front: nat, pointers: map<U32, nat>, view: map<U32, Node<V>>, rest: map<U32, nat>, view': map<U32, Node<V>>)
    requires Viewed(queue, front, pointers, view) && queue != []
    requires Without(pointers, queue[0].ip, rest) && Without(view, queue[0].ip, view')
    ensures Viewed(queue[1..], front + 1, rest, view')
  {
    hide LeadsTo;
    forall ip
      ensures ip in view'.Keys <==> ip in rest.Keys
    {
      assert ip in view.Keys <==> ip in pointers.Keys;
    }
    forall ip | ip in view'
      ensures view'[ip].ip == ip && LeadsTo(queue[1..], front + 1, rest[ip], view'[ip])
    {
      LeadsBehind(queue, front, pointers[ip], view[ip]);
    }
  }

  lemma PoppingSorted<V>(queue: seq<Node<V>>)
    requires Sorted(queue) && queue != []
    ensures Sorted(queue[1..])
  {
  }

  lemma Popping<V>(queue: seq<Node<V>>, front: nat, pointers: map<U32, nat>, view: map<U32, Node<V>>, rest: map<U32, nat>, view': map<U32, Node<V>>)
    requires Linked(queue, front, pointers, view) && queue != []
    requires Without(pointers, queue[0].ip, rest) && Without(view, queue[0].ip, view')
    ensures queue[0].ip in view && view[queue[0].ip] == queue[0]
    ensures Linked(queue[1..], front + 1, rest, view')
  {
    hide Owned, Viewed, Sorted, Without;
    NodeIsViewed(queue, front, pointers, view, 0);
    PoppingOwned(queue, front, pointers, rest);
    PoppingViewed(queue, front, pointers, view, rest, view');
    PoppingSorted(queue);
  }

  // ----- what has expired -----

  /** Nothing in the map is older than the node at the front. */
  lemma FrontIsOldest<V>(queue: seq<Node<V>>, front: nat, pointers: map<U32, nat>, view: map<U32, Node<V>>, ip: U32)
    requires Viewed(queue, front, pointers, view) && Sorted(queue) && ip in view
    ensures queue != [] && queue[0].at <= view[ip].at
  {
    assert ip in pointers.Keys;
    assert LeadsTo(queue, front, pointers[ip], view[ip]);
  }

  /** Stopping at the first node that has not expired is filtering the whole map. */
  lemma FrontScanFilters<V>(queue: seq<Node<V>>, front: nat, pointers: map<U32, nat>, view: map<U32, Node<V>>,
      all: map<U32, Node<V>>, now: nat, timeout: nat)
    requires Linked(queue, front, pointers, view)
    requires queue != [] ==> now < queue[0].at + timeout
    requires forall ip :: ip in view ==> ip in all && all[ip] == view[ip]
    requires forall ip :: ip in all && ip !in view ==> now >= all[ip].at + timeout
    ensures view == map ip | ip in all && now < all[ip].at + timeout :: all[ip]
  {
    hide Owned, Viewed, Sorted;
    forall ip | ip in view
      ensures now < all[ip].at + timeout
    {
      FrontIsOldest(queue, front, pointers, view, ip);
    }
  }

  datatype TableEntry = TableEntry(mapping: Option<nat>, request: Option<nat>, pending: seq<Datagram>)

  const NEW_ENTRY := TableEntry(None, None, [])

  ghost function MappingPointers(table: map<U32, TableEntry>): map<U32, nat> {
    map ip | ip in table && table[ip].mapping.Some? :: table[ip].mapping.value
  }

  ghost function RequestPointers(table: map<U32, TableEntry>): map<U32, nat> {
    map ip | ip in table && table[ip].request.Some? :: table[ip].request.value
  }

  ghost function Waiting(table: map<U32, TableEntry>): map<U32, seq<Datagram>> {
    map ip | ip in table && table[ip].pending != [] :: table[ip].pending
  }

  lemma PointersOfUpdate(table: map<U32, TableEntry>, dst: U32, entry: TableEntry)
    ensures var t := table[dst := entry];
      && MappingPointers(t) == (if entry.mapping.Some? then MappingPointers(table)[dst := entry.mapping.value] else MappingPointers(table) - {dst})
      && RequestPointers(t) == (if entry.request.Some? then RequestPointers(table)[dst := entry.request.value] else RequestPointers(table) - {dst})
      && Waiting(t) == (if entry.pending != [] then Waiting(table)[dst := entry.pending] else Waiting(table) - {dst})
  {
  }

  /** Rewriting an entry with one of its parts unchanged leaves the corresponding map alone. */
  lemma PointersKept(table: map<U32, TableEntry>, dst: U32, entry: TableEntry)
    ensures var was := if dst in table then table[dst] else NEW_ENTRY;
      var t := table[dst := entry];
      && (entry.mapping == was.mapping ==> MappingPointers(t) == MappingPointers(table))
      && (entry.request == was.request ==> RequestPointers(t) == RequestPointers(table))
      && (entry.pending == was.pending ==> Waiting(t) == Waiting(table))
  {
  }

  ghost function KnownOf(view: map<U32, Node<EthernetAddress>>): map<U32, Learned> {
    map ip | ip in view :: Learned(view[ip].value, view[ip].at)
  }

  ghost function AskedOf(view: map<U32, Node<()>>): map<U32, nat> {
    map ip | ip in view :: view[ip].at
  }

  class NetworkInterface {
    const ethernet: EthernetAddress
    const ip: U32
    var frames: seq<Frame>
    var mappingQueue: seq<Node<EthernetAddress>>
    var mappingFront: nat
    var requestQueue: seq<Node<()>>
    var requestFront: nat
    var table: map<U32, TableEntry>
    var timestamp: nat
    ghost var mappings: map<U32, Node<EthernetAddress>>
    ghost var requests: map<U32, Node<()>>

    ghost predicate WellLinked()
      reads this
    {
      && Linked(mappingQueue, mappingFront, MappingPointers(table), mappings)
      && Linked(requestQueue, requestFront, RequestPointers(table), requests)
    }

    ghost predicate Valid()
      reads this
    {
      WellLinked() && Value().Valid()
    }

    /** The interface as a timed map. */
    ghost function Value(): Interface
      reads this
    {
      Interface(ethernet, ip, timestamp, KnownOf(mappings), AskedOf(requests), Waiting(table), frames)
    }

    constructor (ethernetAddress: EthernetAddress, ipAddress: U32)
      ensures Valid() && Value() == NewInterface(ethernetAddress, ipAddress)
    {
      ethernet, ip := ethernetAddress, ipAddress;
      frames, mappingQueue, requestQueue, mappingFront, requestFront, timestamp := [], [], [], 0, 0, 0;
      table, mappings, requests := map[], map[], map[];
    }

    /** `operator[]` of the table: a missing entry is created. */
    function Entry(dst: U32): TableEntry
      reads this
    {
      if dst in table then table[dst] else NEW_ENTRY
    }

    /** Creates the entry if it is missing, and nothing else. */
    method Touch(dst: U32)
      requires Valid()
      modifies this`table
      ensures Valid() && dst in table && Value() == old(Value())
    {
      hide MappingPointers, RequestPointers, Waiting, Linked, KnownOf, AskedOf;
      PointersKept(table, dst, Entry(dst));
      table := table[dst := Entry(dst)];
    }

    method SendDatagram(dgram: Datagram, nextHop: U32)
      requires Valid()
      modifies this
      ensures Valid() && Value() == ArpModel.SendDatagram(old(Value()), dgram, nextHop)
    {
      hide MappingPointers, RequestPointers, Waiting, Linked, KnownOf, AskedOf, Interface.Valid;
      Touch(nextHop);
      var entry := table[nextHop];
      EntryMeans(nextHop);
      SendKeepsValid(Value(), dgram, nextHop);
      if entry.mapping.None? {
        if entry.request.None? {
          Ask(dgram, nextHop);
        }
      } else {
        var node := mappingQueue[entry.mapping.value - mappingFront];
        frames := frames + [Frame(node.value, ethernet, Ip(dgram))];
      }
    }

    /** What the two pointers of an entry say. */
    lemma EntryMeans(dst: U32)
      requires Valid() && dst in table
      ensures var entry := table[dst];
        && (entry.mapping.Some? <==> dst in Value().known)
        && (entry.mapping.Some? ==>
              && mappingFront <= entry.mapping.value < mappingFront + |mappingQueue|
              && var node := mappingQueue[entry.mapping.value - mappingFront];
                 Value().known[dst] == Learned(node.value, node.at))
        && (entry.request.Some? <==> dst in Value().asked)
        && entry.pending == Value().Pending(dst)
    {
      hide Owned, Sorted, LeadsTo, Interface.Valid;
      assert dst in MappingPointers(table) <==> table[dst].mapping.Some?;
      assert dst in RequestPointers(table) <==> table[dst].request.Some?;
      assert dst in mappings.Keys <==> dst in MappingPointers(table).Keys;
      assert dst in requests.Keys <==> dst in RequestPointers(table).Keys;
      if table[dst].mapping.Some? {
        PointerIsLive(mappingQueue, mappingFront, MappingPointers(table), mappings, dst);
      }
    }

    /** A request goes out and is remembered; the datagram waits. */
    method Ask(dgram: Datagram, dst: U32)
      requires Valid() && dst in table && table[dst].mapping.None? && table[dst].request.None?
      requires dst !in Value().known && dst !in Value().asked && table[dst].pending == Value().Pending(dst)
      modifies this
      ensures WellLinked() && Value() == ArpModel.SendDatagram(old(Value()), dgram, dst)
    {
      hide MappingPointers, RequestPointers, Waiting, Linked, KnownOf, AskedOf, Interface.Valid;
      var node := Node(dst, (), timestamp);
      var entry := table[dst].(pending := table[dst].pending + [dgram], request := Some(requestFront + |requestQueue|));
      RequestIsNewest(node);
      Appending(requestQueue, requestFront, RequestPointers(table), requests, node);
      PointersOfUpdate(table, dst, entry);
      PointersKept(table, dst, entry);
      AskedOfUpdate(requests, node);
      frames := frames + [Frame(BROADCAST, ethernet, ArpPayload(ArpMessage(Request, ethernet, ip, NO_ETHERNET, dst)))];
      table := table[dst := entry];
      requestQueue := requestQueue + [node];
      requests := requests[dst := node];
    }

    lemma RequestIsNewest(node: Node<()>)
      requires Valid() && node.at == timestamp && node.ip !in Value().asked
      ensures node.ip !in RequestPointers(table) && forall ip :: ip in requests ==> requests[ip].at <= node.at
    {
      hide MappingPointers, RequestPointers, Waiting, KnownOf;
      forall ip | ip in requests
        ensures requests[ip].at <= node.at
      {
        assert ip in Value().asked && Value().asked[ip] == requests[ip].at;
      }
    }

    /** Appends one IPv4 frame per waiting datagram, taking each off the queue of its entry. */
    method Flush(dst: U32, address: EthernetAddress)
      requires dst in table
      modifies this`frames, this`table
      ensures table == old(table)[dst := old(table)[dst].(pending := [])]
      ensures frames == old(frames) + IpFrames(Value(), address, old(table)[dst].pending)
    {
      ghost var all, i := table[dst].pending, 0;
      while table[dst].pending != []
        invariant i <= |all| && dst in table && table == old(table)[dst := old(table)[dst].(pending := all[i..])]
        invariant frames == old(frames) + IpFrames(Value(), address, all[..i])
        decreases |all| - i
      {
        var entry := table[dst];
        assert all[..i + 1] == all[..i] + [all[i]];
        frames := frames + [Frame(address, ethernet, Ip(entry.pending[0]))];
        table := table[dst := entry.(pending := entry.pending[1..])];
        i := i + 1;
      }
      assert all[..i] == all;
    }

    lemma MappingIsNewest(node: Node<EthernetAddress>)
      requires Valid() && node.at == timestamp && node.ip !in Value().known
      ensures node.ip !in MappingPointers(table) && forall ip :: ip in mappings ==> mappings[ip].at <= node.at
    {
      hide MappingPointers, RequestPointers, Waiting, AskedOf;
      forall ip | ip in mappings
        ensures mappings[ip].at <= node.at
      {
        assert ip in Value().known && Value().known[ip].at == mappings[ip].at;
      }
    }

    /** A mapping that is not remembered is stored, and what waits for it is sent. */
    method Learn(sender: U32, address: EthernetAddress)
      requires Valid()
      modifies this
      ensures Valid() && Value() == ArpModel.Learn(old(Value()), sender, address)
    {
      hide MappingPointers, RequestPointers, Waiting, Linked, KnownOf, AskedOf, Interface.Valid, IpFrames;
      Touch(sender);
      EntryMeans(sender);
      LearnKeepsValid(Value(), sender, address);
      var entry := table[sender];
      if entry.mapping.None? {
        var node := Node(sender, address, timestamp);
        var linked := entry.(mapping := Some(mappingFront + |mappingQueue|));
        MappingIsNewest(node);
        Appending(mappingQueue, mappingFront, MappingPointers(table), mappings, node);
        KnownOfUpdate(mappings, node);
        FlushedTable(table, sender, linked);
        mappingQueue := mappingQueue + [node];
        mappings := mappings[sender := node];
        table := table[sender := linked];
        Flush(sender, address);
        SameFraming(old(Value()), Value(), address, entry.pending);
      }
    }

    method ReceiveFrame(f: Frame) returns (r: Received)
      requires Valid()
      modifies this
      ensures Valid() && (Value(), r) == ArpModel.ReceiveFrame(old(Value()), f)
    {
      hide MappingPointers, RequestPointers, Waiting, Linked, KnownOf, AskedOf, Interface.Valid, ArpModel.Learn;
      ReceiveKeepsValid(Value(), f);
      if f.dst != ethernet && f.dst != BROADCAST {
        return Nothing;
      }
      match f.payload
      case Ip(d) =>
        return Got(d);
      case ArpPayload(msg) =>
        if msg.targetIp != ip {
          return Nothing;
        }
        Learn(msg.senderIp, msg.senderEthernet);
        if msg.op.Request? {
          frames := frames + [Frame(msg.senderEthernet, ethernet, ArpPayload(ArpMessage(Reply, ethernet, ip, msg.senderEthernet, msg.senderIp)))];
        }
        return Nothing;
      case Unknown =>
        return InvalidType;
    }

    method MaybeSend() returns (sent: Option<Frame>)
      requires Valid()
      modifies this`frames
      ensures Valid() && (Value(), sent) == ArpModel.MaybeSend(old(Value()))
    {
      hide MappingPointers, RequestPointers, Waiting, Linked, KnownOf, AskedOf;
      if frames == [] {
        return None;
      }
      sent := Some(frames[0]);
      frames := frames[1..];
    }

    /** Expired mappings leave from the front of their queue. */
    method ExpireMappings()
      requires WellLinked()
      modifies this`table, this`mappingQueue, this`mappingFront, this`mappings
      ensures WellLinked() && Waiting(table) == old(Waiting(table)) && RequestPointers(table) == old(RequestPointers(table))
      ensures KnownOf(mappings) == StillKnown(KnownOf(old(mappings)), timestamp)
    {
      hide Owned, Viewed, Sorted, MappingPointers, RequestPointers, Waiting, Without;
      ghost var all := mappings;
      while mappingQueue != []
        invariant WellLinked() && Waiting(table) == old(Waiting(table)) && RequestPointers(table) == old(RequestPointers(table))
        invariant forall i :: i in mappings ==> i in all && all[i] == mappings[i]
        invariant forall i :: i in all && i !in mappings ==> timestamp >= all[i].at + MAPPING_TIMEOUT_MS
        decreases |mappingQueue|
      {
        if timestamp < mappingQueue[0].at + MAPPING_TIMEOUT_MS {
          break;
        }
        PopMapping();
      }
      FrontScanFilters(mappingQueue, mappingFront, MappingPointers(table), mappings, all, timestamp, MAPPING_TIMEOUT_MS);
      FilteredKnown(all, mappings, timestamp);
    }

    method PopMapping()
      requires WellLinked() && mappingQueue != []
      modifies this`table, this`mappingQueue, this`mappingFront, this`mappings
      ensures WellLinked() && Waiting(table) == old(Waiting(table)) && RequestPointers(table) == old(RequestPointers(table))
      ensures mappingQueue == old(mappingQueue)[1..]
      ensures var first := old(mappingQueue)[0];
        first.ip in old(mappings) && old(mappings)[first.ip] == first && mappings == old(mappings) - {first.ip}
    {
      hide Linked, Waiting, RequestPointers;
      ghost var before, view := table, mappings;
      var dst := mappingQueue[0].ip;
      FirstMappingOwned();
      table := table[dst := table[dst].(mapping := None)];
      PointersOfUpdate(before, dst, table[dst]);
      PointersKept(before, dst, table[dst]);
      hide MappingPointers;
      Popping(mappingQueue, mappingFront, MappingPointers(before), mappings, MappingPointers(table), mappings - {dst});
      mappingQueue := mappingQueue[1..];
      mappingFront := mappingFront + 1;
      mappings := mappings - {dst};
    }

    lemma FirstMappingOwned()
      requires WellLinked() && mappingQueue != []
      ensures mappingQueue[0].ip in table
    {
      hide RequestPointers, Waiting;
      NodeIsViewed(mappingQueue, mappingFront, MappingPointers(table), mappings, 0);
    }

    /** Requests that have waited long enough leave from the front of their queue. */
    method ExpireRequests()
      requires WellLinked()
      modifies this`table, this`requestQueue, this`requestFront, this`requests
      ensures WellLinked() && Waiting(table) == old(Waiting(table)) && MappingPointers(table) == old(MappingPointers(table))
      ensures AskedOf(requests) == StillAsked(AskedOf(old(requests)), timestamp)
    {
      hide Owned, Viewed, Sorted, MappingPointers, RequestPointers, Waiting, Without;
      ghost var all := requests;
      while requestQueue != []
        invariant WellLinked() && Waiting(table) == old(Waiting(table)) && MappingPointers(table) == old(MappingPointers(table))
        invariant forall i :: i in requests ==> i in all && all[i] == requests[i]
        invariant forall i :: i in all && i !in requests ==> timestamp >= all[i].at + REQUEST_WAITING_MS
        decreases |requestQueue|
      {
        if timestamp < requestQueue[0].at + REQUEST_WAITING_MS {
          break;
        }
        PopRequest();
      }
      FrontScanFilters(requestQueue, requestFront, RequestPointers(table), requests, all, timestamp, REQUEST_WAITING_MS);
      FilteredAsked(all, requests, timestamp);
    }

    method PopRequest()
      requires WellLinked() && requestQueue != []
      modifies this`table, this`requestQueue, this`requestFront, this`requests
      ensures WellLinked() && Waiting(table) == old(Waiting(table)) && MappingPointers(table) == old(MappingPointers(table))
      ensures requestQueue == old(requestQueue)[1..]
      ensures var first := old(requestQueue)[0];
        first.ip in old(requests) && old(requests)[first.ip] == first && requests == old(requests) - {first.ip}
    {
      hide Linked, Waiting, MappingPointers;
      ghost var before := table;
      var dst := requestQueue[0].ip;
      FirstRequestOwned();
      table := table[dst := table[dst].(request := None)];
      PointersOfUpdate(before, dst, table[dst]);
      PointersKept(before, dst, table[dst]);
      hide RequestPointers;
      Popping(requestQueue, requestFront, RequestPointers(before), requests, RequestPointers(table), requests - {dst});
      requestQueue := requestQueue[1..];
      requestFront := requestFront + 1;
      requests := requests - {dst};
    }

    lemma FirstRequestOwned()
      requires WellLinked() && requestQueue != []
      ensures requestQueue[0].ip in table
    {
      hide MappingPointers, Waiting;
      NodeIsViewed(requestQueue, requestFront, RequestPointers(table), requests, 0);
    }

    /** Time passes; both queues drop what has expired. */
    method Tick(ms: nat)
      requires Valid()
      modifies this
      ensures Valid() && Value() == ArpModel.Tick(old(Value()), ms)
    {
      hide MappingPointers, RequestPointers, Waiting, Linked, Interface.Valid, KnownOf, AskedOf, StillKnown, StillAsked;
      StepKeepsValid(Value(), Wait(ms));
      timestamp := timestamp + ms;
      ExpireMappings();
      ExpireRequests();
    }
  }

  lemma FilteredKnown(all: map<U32, Node<EthernetAddress>>, view: map<U32, Node<EthernetAddress>>, now: nat)
    requires view == map ip | ip in all && now < all[ip].at + MAPPING_TIMEOUT_MS :: all[ip]
    ensures KnownOf(view) == StillKnown(KnownOf(all), now)
  {
  }

  lemma FilteredAsked(all: map<U32, Node<()>>, view: map<U32, Node<()>>, now: nat)
    requires view == map ip | ip in all && now < all[ip].at + REQUEST_WAITING_MS :: all[ip]
    ensures AskedOf(view) == StillAsked(AskedOf(all), now)
  {
  }

  /** Storing a pointer and then emptying the waiting queue. */
  lemma FlushedTable(table: map<U32, TableEntry>, dst: U32, linked: TableEntry)
    requires dst in table && linked.mapping.Some? && linked.request == table[dst].request
    ensures var t := table[dst := linked][dst := linked.(pending := [])];
      && MappingPointers(t) == MappingPointers(table)[dst := linked.mapping.value]
      && RequestPointers(t) == RequestPointers(table)
      && Waiting(t) == Waiting(table) - {dst}
  {
    var last := linked.(pending := []);
    assert table[dst := linked][dst := last] == table[dst := last];
    PointersOfUpdate(table, dst, last);
    PointersKept(table, dst, last);
  }

  lemma AskedOfUpdate(view: map<U32, Node<()>>, node: Node<()>)
    ensures AskedOf(view[node.ip := node]) == AskedOf(view)[node.ip := node.at]
  {
  }

  lemma KnownOfUpdate(view: map<U32, Node<EthernetAddress>>, node: Node<EthernetAddress>)
    ensures KnownOf(view[node.ip := node]) == KnownOf(view)[node.ip := Learned(node.value, node.at)]
  {
  }
}
