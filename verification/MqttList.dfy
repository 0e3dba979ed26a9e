/**
 * The packet list of pico_mqtt/pico_mqtt_list.c: a doubly linked list on the heap,
 * proved against the sequence of its elements.
 */
module MqttList {
  import opened Heap

  class Packet {
    const packetId: nat

    constructor (packetId: nat)
      ensures this.packetId == packetId
    {
      this.packetId := packetId;
    }
  }

  class Element {
    var previous: Element?
    var next: Element?
    const packet: Packet

    constructor (packet: Packet)
      ensures previous == null && next == null && this.packet == packet
    {
      previous, next, this.packet := null, null, packet;
    }
  }

  /** Inserting x so that it ends up at position p. */
  function Inserted<T>(s: seq<T>, p: nat, x: T): (r: seq<T>)
    requires p <= |s|
    ensures |r| == |s| + 1
    ensures r[p] == x
    ensures forall i :: 0 <= i < p ==> r[i] == s[i]
    ensures forall i {:trigger r[i]} :: p < i < |r| ==> r[i] == s[i - 1]
  {
    s[..p] + [x] + s[p..]
  }

  function Removed<T>(s: seq<T>, p: nat): seq<T>
    requires p < |s|
  {
    s[..p] + s[p + 1..]
  }

  function Packets(es: seq<Element>): (ps: seq<Packet>)
    ensures |ps| == |es|
  {
    seq(|es|, i requires 0 <= i < |es| => es[i].packet)
  }

  /** Where list_add puts a packet in a list of n when asked for position `index`. */
  function InsertPosition(n: nat, index: nat): (p: nat)
    requires index <= n
    ensures p <= n
  {
    if index == n || index <= (n + 1) / 2 then index else index - 1
  }

  /** Where an element is that was not there before. */
  lemma InsertedOnce<T>(s: seq<T>, p: nat, x: T, index: nat)
    requires p <= |s| && x !in s && index <= |s|
    ensures Inserted(s, p, x)[index] == x <==> index == p
  {
    hide Inserted;
    if index < p {
      assert s[index] in s;
    } else if index > p {
      assert s[index - 1] in s;
    }
  }

  /** list_add honours the index exactly at the end and in the front half. */
  lemma InsertPositionExact(n: nat, index: nat)
    requires index <= n
    ensures InsertPosition(n, index) == index <==> index == n || 2 * index <= n + 1
  {
  }

  /** No packet would be freed twice, or without having been allocated. */
  ghost predicate Freeable(ps: seq<Packet>, live: set<object>) {
    && (forall i :: 0 <= i < |ps| ==> ps[i] in live)
    && (forall i, j :: 0 <= i < j < |ps| ==> ps[i] != ps[j])
  }

  /** The first k elements and their packets are gone; `clean` if every free was right. */
  ghost predicate FreedUpTo(es: seq<Element>, k: nat, live: set<object>, live': set<object>, clean: bool)
    requires k <= |es|
  {
    && live' <= live
    && (forall o :: o in live ==> (o !in live' <==> exists i :: 0 <= i < k && (o == es[i] || o == es[i].packet)))
    && (clean <==> Freeable(Packets(es[..k]), live))
  }

  lemma NothingFreed(es: seq<Element>, live: set<object>)
    ensures FreedUpTo(es, 0, live, live, true)
  {
  }

  lemma FreeableSnoc(ps: seq<Packet>, p: Packet, live: set<object>)
    ensures Freeable(ps + [p], live) <==> Freeable(ps, live) && p in live && p !in ps
  {
    var all := ps + [p];
    if Freeable(all, live) {
      assert all[|ps|] == p;
      assert forall i :: 0 <= i < |ps| ==> all[i] == ps[i];
    }
  }

  lemma InPackets(es: seq<Element>, k: nat, p: Packet)
    requires k <= |es|
    ensures p in Packets(es[..k]) <==> exists i :: 0 <= i < k && es[i].packet == p
  {
    var ps := Packets(es[..k]);
    assert forall i :: 0 <= i < k ==> ps[i] == es[i].packet;
  }

  lemma FreedStep(es: seq<Element>, k: nat, live: set<object>, live': set<object>, clean: bool)
    requires k < |es| && FreedUpTo(es, k, live, live', clean)
    ensures FreedUpTo(es, k + 1, live, live' - {es[k].packet} - {es[k]}, clean && es[k].packet in live')
  {
    var ps, p := Packets(es[..k]), es[k].packet;
    assert Packets(es[..k + 1]) == ps + [p];
    FreeableSnoc(ps, p, live);
    assert forall i :: 0 <= i < k ==> ps[i] == es[i].packet;
    if p as object in live {
      assert forall e: Element :: e in es ==> p as object != e;
      InPackets(es, k, p);
    }
  }

  class PacketList {
    var length: nat
    var first: Element?
    var last: Element?
    const mem: Memory
    ghost var elements: seq<Element>

    /** first, last, previous and next spell out one acyclic chain. */
    ghost predicate Linked()
      reads this, elements
    {
      && (elements == [] ==> first == null && last == null)
      && (elements != [] ==>
            && first == elements[0] && last == elements[|elements| - 1]
            && elements[0].previous == null && elements[|elements| - 1].next == null)
      && (forall i {:trigger elements[i].next} :: 0 <= i < |elements| - 1 ==> elements[i].next == elements[i + 1])
      && (forall i {:trigger elements[i].previous} :: 1 <= i < |elements| ==> elements[i].previous == elements[i - 1])
      && (forall i, j :: 0 <= i < j < |elements| ==> elements[i] != elements[j])
    }

    ghost predicate Valid()
      reads this, elements, mem
    {
      && Linked()
      && length == |elements| && this in mem.live
      && (forall e :: e in elements ==> e in mem.live)
    }

    /** What pico_mqtt_list_create makes of a block it was given. */
    constructor (mem: Memory)
      modifies mem`live
      ensures Valid() && this.mem == mem && elements == []
      ensures mem.live == old(mem.live) + {this}
    {
      this.mem := mem;
      length, first, last, elements := 0, null, null, [];
      new;
      mem.Track(this);
    }

    /** create_element */
    method CreateElement(packet: Packet) returns (element: Element?)
      modifies mem
      ensures mem.refusals == old(mem.refusals) + if element == null then 1 else 0
      ensures element == null ==> mem.live == old(mem.live)
      ensures element != null ==>
                && fresh(element) && element.packet == packet
                && element.previous == null && element.next == null
                && mem.live == old(mem.live) + {element}
      ensures mem.faults == old(mem.faults)
    {
      var granted := mem.Grant();
      if !granted {
        return null;
      }
      element := new Element(packet);
      mem.Track(element);
    }

    /**
     * get_element_by_index. list_add calls it after it has already counted the new
     * element, so the length may be one ahead of the chain.
     */
    method GetElementByIndex(index: nat) returns (element: Element)
      requires Linked() && index < |elements| <= length <= |elements| + 1
      ensures element in elements
      ensures element == elements[if index > length / 2 then index - (length - |elements|) else index]
    {
      if index > length / 2 {
        var e, i := last, length - 1;
        ghost var p := |elements| - 1;
        while i > index
          invariant index <= i < length
          invariant p == i - (length - |elements|) && 0 <= p < |elements| && e == elements[p]
        {
          e, i, p := e.previous, i - 1, p - 1;
        }
        element := e;
      } else {
        var e, i := first, 0;
        while i < index
          invariant 0 <= i <= index && e == elements[i]
        {
          e, i := e.next, i + 1;
        }
        element := e;
      }
    }

    /** list_add, at the end of a list that is not empty. */
    method Append(element: Element)
      requires Linked() && elements != [] && element !in elements
      modifies this`last, this`elements, elements, element
      ensures Linked() && elements == Inserted(old(elements), |old(elements)|, element)
    {
      last.next := element;
      element.previous, element.next := last, null;
      last := element;
      elements := Inserted(elements, |elements|, element);
    }

    /** list_add, ahead of the element at position p. */
    method InsertBefore(element: Element, nextElement: Element, index: nat, ghost p: nat)
      requires Linked() && element !in elements && p < |elements| && nextElement == elements[p]
      requires index == 0 <==> p == 0
      modifies this`first, this`elements, elements, element
      ensures Linked() && elements == Inserted(old(elements), p, element)
      ensures last == old(last)
    {
      hide Inserted;
      element.previous, element.next := nextElement.previous, nextElement;
      nextElement.previous := element;
      if index != 0 {
        element.previous.next := element;
      } else {
        first := element;
      }
      elements := Inserted(elements, p, element);
    }

    /** The part of list_add that follows the allocation. */
    method Link(element: Element, index: nat)
      requires Linked() && length == |elements| && index <= length && element !in elements
      modifies this`length, this`first, this`last, this`elements, elements, element
      ensures Linked() && length == |elements|
      ensures elements == Inserted(old(elements), InsertPosition(|old(elements)|, index), element)
    {
      length := length + 1;
      if length == 1 {
        first, last := element, element;
        element.previous, element.next := null, null;
        elements := [element];
      } else if index + 1 == length {
        hide Inserted;
        Append(element);
      } else {
        hide Inserted;
        var nextElement := GetElementByIndex(index);
        InsertBefore(element, nextElement, index, InsertPosition(|elements|, index));
      }
    }

    /** list_add */
    method ListAdd(packet: Packet, index: nat) returns (ok: bool)
      requires Valid() && index <= length
      modifies this, elements, mem
      ensures Valid() && mem.faults == old(mem.faults)
      ensures mem.refusals == old(mem.refusals) + if ok then 0 else 1
      ensures !ok ==> elements == old(elements) && mem.live == old(mem.live)
      ensures ok ==>
        exists e: Element ::
          && fresh(e) && e.packet == packet && mem.live == old(mem.live) + {e}
          && elements == Inserted(old(elements), InsertPosition(|old(elements)|, index), e)
          && (elements[index] == e <==> index == |old(elements)| || 2 * index <= |old(elements)| + 1)
    {
      hide Inserted, InsertPosition;
      ghost var es, p := elements, InsertPosition(|elements|, index);
      var element := CreateElement(packet);
      if element == null {
        return false;
      }
      Link(element, index);
      InsertedOnce(es, p, element, index);
      InsertPositionExact(|es|, index);
      ok := true;
    }

    /** pico_mqtt_list_push_back */
    method PushBack(packet: Packet) returns (ok: bool)
      requires Valid()
      modifies this, elements, mem
      ensures Valid() && mem.faults == old(mem.faults)
      ensures mem.refusals == old(mem.refusals) + if ok then 0 else 1
      ensures Packets(elements) == Packets(old(elements)) + if ok then [packet] else []
    {
      ok := ListAdd(packet, length);
    }

    method Unlink(element: Element, ghost p: nat)
      requires Linked() && p < |elements| && element == elements[p]
      modifies this`first, this`last, this`elements, elements
      ensures Linked() && elements == Removed(old(elements), p)
    {
      if first == element {
        first := element.next;
      } else {
        element.previous.next := element.next;
      }
      if last == element {
        last := element.previous;
      } else {
        element.next.previous := element.previous;
      }
      elements := Removed(elements, p);
    }

    /** remove_element: unlinks and frees the element at position p. */
    method RemoveElement(element: Element, ghost p: nat)
      requires Valid() && p < |elements| && element == elements[p]
      modifies this, elements, mem`live, mem`faults
      ensures Valid() && elements == Removed(old(elements), p)
      ensures mem.live == old(mem.live) - {element} && mem.faults == old(mem.faults)
    {
      length := length - 1;
      Unlink(element, p);
      mem.Free(element);
    }

    /** pico_mqtt_list_get: takes out the last packet with the id. */
    method Get(packetId: nat) returns (packet: Packet?)
      requires Valid()
      modifies this, elements, mem`live, mem`faults
      ensures Valid() && mem.faults == old(mem.faults)
      ensures packet == null <==> forall e :: e in old(elements) ==> e.packet.packetId != packetId
      ensures packet == null ==> elements == old(elements) && mem.live == old(mem.live)
      ensures packet != null ==>
        exists p :: 0 <= p < |old(elements)|
          && packet == old(elements)[p].packet && packet.packetId == packetId
          && (forall q :: p < q < |old(elements)| ==> old(elements)[q].packet.packetId != packetId)
          && elements == Removed(old(elements), p)
          && mem.live == old(mem.live) - {old(elements)[p]}
    {
      if length == 0 {
        return null;
      }
      var element, i := last, length;
      while i > 0
        invariant 0 <= i <= length
        invariant i > 0 ==> element == elements[i - 1]
        invariant forall q :: i <= q < length ==> elements[q].packet.packetId != packetId
      {
        if element.packet.packetId == packetId {
          packet := element.packet;
          RemoveElement(element, i - 1);
          return packet;
        }
        element, i := element.previous, i - 1;
      }
      packet := null;
    }

    /** pico_mqtt_list_pop */
    method Pop() returns (packet: Packet?)
      requires Valid()
      modifies this, elements, mem`live, mem`faults
      ensures Valid() && mem.faults == old(mem.faults)
      ensures old(elements) == [] ==> packet == null && elements == [] && mem.live == old(mem.live)
      ensures old(elements) != [] ==>
                && packet == old(elements)[0].packet && elements == old(elements)[1..]
                && mem.live == old(mem.live) - {old(elements)[0]}
    {
      if length == 0 {
        return null;
      }
      length := length - 1;
      var element := first;
      first := element.next;
      if length == 0 {
        last := null;
      } else {
        element.next.previous := null;
      }
      packet := element.packet;
      mem.Free(element);
      elements := elements[1..];
    }

    /** The first element and its packet are freed. */
    method FreeFirst() returns (next: Element?)
      requires Valid() && first != null
      modifies this, elements, mem`live, mem`faults
      ensures Valid() && next == first && old(elements) != [] && elements == old(elements)[1..]
      ensures var e := old(elements)[0];
        && mem.live == old(mem.live) - {e.packet} - {e}
        && mem.faults == old(mem.faults) + if e.packet in old(mem.live) then 0 else 1
    {
      var current := first;
      next := current.next;
      mem.Free(current.packet);
      RemoveElement(current, 0);
    }

    /** The loop of pico_mqtt_list_destroy: all elements and packets. */
    method FreeElements()
      requires Valid()
      modifies this, elements, mem`live, mem`faults
      ensures Valid() && elements == [] && mem.live <= old(mem.live)
      ensures FreedUpTo(old(elements), |old(elements)|, old(mem.live), mem.live, mem.faults == old(mem.faults))
    {
      hide FreedUpTo;
      var current := first;
      ghost var k, all, live := 0, elements, mem.live;
      NothingFreed(all, live);
      while current != null
        invariant Valid() && 0 <= k <= |all| && elements == all[k..]
        invariant current == first && mem.faults >= old(mem.faults) && mem.live <= live
        invariant FreedUpTo(all, k, live, mem.live, mem.faults == old(mem.faults))
        decreases |elements|
      {
        ghost var before, clean := mem.live, mem.faults == old(mem.faults);
        current := FreeFirst();
        FreedStep(all, k, live, before, clean);
        k := k + 1;
      }
    }

    /**
     * pico_mqtt_list_destroy. The list and every element and packet of it are freed, and
     * no free goes wrong exactly when the list held distinct packets that were all allocated.
     */
    method Destroy()
      requires Valid()
      modifies this, elements, mem`live, mem`faults
      ensures elements == [] && length == 0 && mem.live <= old(mem.live)
      ensures forall o :: o in old(mem.live) ==>
                (o !in mem.live <==> o == this || exists e :: e in old(elements) && (o == e || o == e.packet))
      ensures mem.faults == old(mem.faults) <==> Freeable(Packets(old(elements)), old(mem.live))
    {
      FreeElements();
      ghost var all := old(elements);
      assert all[..|all|] == all;
      assert forall i :: 0 <= i < |all| ==> all[i] in all;
      mem.Free(this);
    }
  }

  /** pico_mqtt_list_create */
  method ListCreate(mem: Memory) returns (list: PacketList?)
    modifies mem
    ensures mem.refusals == old(mem.refusals) + if list == null then 1 else 0
    ensures mem.faults == old(mem.faults)
    ensures list == null ==> mem.live == old(mem.live)
    ensures list != null ==>
              fresh(list) && list.Valid() && list.mem == mem && list.elements == []
              && mem.live == old(mem.live) + {list}
  {
    var granted := mem.Grant();
    if !granted {
      return null;
    }
    list := new PacketList(mem);
  }
}
