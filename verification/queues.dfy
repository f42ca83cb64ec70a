/**
 The device queues of one hart (bbl/mtrap.c).

 A request or response is a message in the supervisor's memory; machine mode threads the messages it
 holds into null-terminated lists through their private word.
 */
module DeviceQueues {
  import opened Basics

  const HTIF_CMD_READ := 0
  const NULL := 0

  datatype Message = Message(dev: nat, cmd: nat, data: nat, next: int)

  type Memory = map<int, Message>

  // ---------------------------------------------------------------- lists in memory

  function At(s: seq<int>, k: int): int {
    if 0 <= k < |s| then s[k] else NULL
  }

  /** head starts a list of exactly the messages at the addresses s. */
  ghost predicate Chain(mem: Memory, head: int, s: seq<int>) {
    && head == At(s, 0)
    && forall i :: 0 <= i < |s| ==> s[i] != NULL && s[i] in mem && mem[s[i]].next == At(s, i + 1)
  }

  ghost predicate Disjoint(s: seq<int>, t: seq<int>) {
    forall i, j :: 0 <= i < |s| && 0 <= j < |t| ==> s[i] != t[j]
  }

  ghost predicate NotIn(m: int, s: seq<int>) {
    forall i :: 0 <= i < |s| ==> s[i] != m
  }

  function SetNext(mem: Memory, m: int, next: int): Memory
    requires m in mem
  {
    mem[m := mem[m].(next := next)]
  }

  function SetData(mem: Memory, m: int, data: nat): Memory
    requires m in mem
  {
    mem[m := mem[m].(data := data)]
  }

  /** A message but for its link. */
  function Content(m: Message): Message {
    m.(next := NULL)
  }

  /** No message has changed but for its link, except possibly m, which is now content. */
  ghost predicate KeptBut(mem: Memory, mem': Memory, m: int, content: Message) {
    forall a :: a in mem ==> a in mem' && Content(mem'[a]) == if a == m then content else Content(mem[a])
  }

  ghost predicate Kept(mem: Memory, mem': Memory) {
    forall a :: a in mem ==> a in mem' && Content(mem'[a]) == Content(mem[a])
  }

  /** Links outside a list, and data anywhere, do not matter to it. */
  lemma ChainKept(mem: Memory, mem': Memory, head: int, s: seq<int>)
    requires Chain(mem, head, s)
    requires forall i :: 0 <= i < |s| ==> s[i] in mem' && mem'[s[i]].next == mem[s[i]].next
    ensures Chain(mem', head, s)
  {
  }

  function LinkedLast(mem: Memory, s: seq<int>, m: int): Memory
    requires m in mem && (s != [] ==> s[|s| - 1] in mem)
  {
    var mem1 := SetNext(mem, m, NULL);
    if s == [] then mem1 else SetNext(mem1, s[|s| - 1], m)
  }

  lemma AppendChain(mem: Memory, head: int, s: seq<int>, m: int)
    requires Chain(mem, head, s) && Distinct(s) && NotIn(m, s) && m != NULL && m in mem
    ensures Chain(LinkedLast(mem, s, m), if s == [] then m else head, s + [m]) && Distinct(s + [m])
  {
    var mem' := LinkedLast(mem, s, m);
    forall i | 0 <= i < |s + [m]|
      ensures var a := (s + [m])[i]; a != NULL && a in mem' && mem'[a].next == At(s + [m], i + 1)
    {
      if i + 1 < |s| {
        assert s[i] != s[|s| - 1] && mem[s[i]].next == At(s, i + 1);
      }
    }
  }

  lemma PrependChain(mem: Memory, head: int, s: seq<int>, m: int)
    requires Chain(mem, head, s) && Distinct(s) && NotIn(m, s) && m != NULL && m in mem
    ensures Chain(SetNext(mem, m, head), m, [m] + s) && Distinct([m] + s)
  {
    var mem' := SetNext(mem, m, head);
    forall i | 0 <= i < |[m] + s|
      ensures var a := ([m] + s)[i]; a != NULL && a in mem' && mem'[a].next == At([m] + s, i + 1)
    {
      assert At([m] + s, i + 1) == At(s, i);
      if i > 0 {
        assert ([m] + s)[i] == s[i - 1];
      }
    }
  }

  function Without(s: seq<int>, k: nat): seq<int>
    requires k < |s|
  {
    s[..k] + s[k + 1..]
  }

  function Unlinked(mem: Memory, s: seq<int>, k: nat): Memory
    requires k < |s| && s[k] in mem && (k > 0 ==> s[k - 1] in mem)
  {
    if k == 0 then mem else SetNext(mem, s[k - 1], mem[s[k]].next)
  }

  lemma UnlinkedKept(mem: Memory, s: seq<int>, k: nat)
    requires k < |s| && s[k] in mem && (k > 0 ==> s[k - 1] in mem)
    ensures Kept(mem, Unlinked(mem, s, k))
  {
  }

  /** What the k-th message and the one before it are in memory. */
  lemma LinkBefore(mem: Memory, head: int, s: seq<int>, k: nat)
    requires Chain(mem, head, s) && k < |s|
    ensures s[k] != NULL && s[k] in mem && (k > 0 ==> At(s, k - 1) != NULL && At(s, k - 1) in mem)
  {
  }

  lemma OtherChain(mem: Memory, head: int, t: seq<int>, s: seq<int>, k: nat)
    requires Chain(mem, head, t) && Disjoint(s, t) && k < |s| && s[k] in mem && (k > 0 ==> s[k - 1] in mem)
    ensures Chain(Unlinked(mem, s, k), head, t) && NotIn(s[k], t)
  {
    ChainKept(mem, Unlinked(mem, s, k), head, t);
  }

  lemma WithoutAt(s: seq<int>, k: nat)
    requires k < |s|
    ensures |Without(s, k)| == |s| - 1
    ensures forall i :: 0 <= i < |s| - 1 ==> Without(s, k)[i] == if i < k then s[i] else s[i + 1]
  {
  }

  lemma WithoutDisjoint(s: seq<int>, k: nat, t: seq<int>)
    requires k < |s| && Disjoint(s, t)
    ensures |Without(s, k)| == |s| - 1 && Disjoint(Without(s, k), t) && NotIn(s[k], t)
  {
    WithoutAt(s, k);
  }

  lemma WithoutDistinct(s: seq<int>, k: nat)
    requires k < |s| && Distinct(s)
    ensures Distinct(Without(s, k)) && NotIn(s[k], Without(s, k))
  {
    WithoutAt(s, k);
  }

  /** The link of the message that is now at position i. */
  lemma UnlinkedNext(mem: Memory, head: int, s: seq<int>, k: nat, i: nat)
    requires Chain(mem, head, s) && Distinct(s) && k < |s| && i < |s| - 1
    ensures
      var t, mem' := Without(s, k), Unlinked(mem, s, k);
      |t| == |s| - 1 && t[i] != NULL && t[i] in mem' && mem'[t[i]].next == At(t, i + 1)
  {
    WithoutAt(s, k);
    hide Without;
    var j := if i < k then i else i + 1;
    assert mem[s[j]].next == At(s, j + 1);
    if k > 0 {
      assert mem[s[k]].next == At(s, k + 1);
      assert j != k - 1 ==> s[j] != s[k - 1];
    }
    hide Chain, Distinct;
  }

  lemma UnlinkChain(mem: Memory, head: int, s: seq<int>, k: nat)
    requires Chain(mem, head, s) && Distinct(s) && k < |s|
    ensures Chain(Unlinked(mem, s, k), if k == 0 then mem[s[0]].next else head, Without(s, k))
    ensures Distinct(Without(s, k)) && NotIn(s[k], Without(s, k))
  {
    var t, mem' := Without(s, k), Unlinked(mem, s, k);
    WithoutDistinct(s, k);
    assert (if k == 0 then mem[s[0]].next else head) == At(t, 0) by { WithoutAt(s, k); }
    hide Without, Unlinked, Distinct, NotIn;
    forall i | 0 <= i < |t|
      ensures t[i] != NULL && t[i] in mem' && mem'[t[i]].next == At(t, i + 1)
    {
      UnlinkedNext(mem, head, s, k, i);
    }
  }

  ghost predicate Backwards(s: seq<int>, t: seq<int>) {
    |t| == |s| && forall i :: 0 <= i < |s| ==> t[|s| - 1 - i] == s[i] && s[|s| - 1 - i] == t[i]
  }

  lemma BackwardsWithout(s: seq<int>, t: seq<int>, k: nat)
    requires Backwards(s, t) && k < |s|
    ensures |t| == |s| && Backwards(Without(s, k), Without(t, |s| - 1 - k))
  {
    var s', t' := Without(s, k), Without(t, |s| - 1 - k);
    forall i | 0 <= i < |s'|
      ensures t'[|s'| - 1 - i] == s'[i] && s'[|s'| - 1 - i] == t'[i]
    {
      WithoutAt(s, k);
    }
  }

  // ---------------------------------------------------------------- hart-local storage

  class Hls {
    var memory: Memory
    var requestHead: int
    var requestSize: nat
    var responseHead: int
    var responseTail: int
    var ipiPending: bool
    var ssip: bool
    ghost var requests: seq<int>
    ghost var responses: seq<int>
    ghost var arrived: seq<int>       // the requests in the order they came

    ghost predicate Valid()
      reads this
    {
      && Chain(memory, requestHead, requests) && requestSize == |requests|
      && Chain(memory, responseHead, responses) && responseTail == At(responses, |responses| - 1)
      && Distinct(requests) && Distinct(responses) && Disjoint(requests, responses)
      && Backwards(requests, arrived)
    }

    /** A message the supervisor hands over: somewhere in memory, and not already queued. */
    ghost predicate Free(m: int)
      reads this
    {
      m != NULL && m in memory && NotIn(m, requests) && NotIn(m, responses)
    }

    constructor (memory: Memory)
      ensures Valid() && requests == [] && arrived == [] && responses == [] && this.memory == memory && !ipiPending && !ssip
    {
      this.memory := memory;
      requestHead, requestSize, responseHead, responseTail := NULL, 0, NULL, NULL;
      ipiPending, ssip, requests, responses, arrived := false, false, [], [], [];
    }

    /** The append that mcall_respond and io_irq_service share. */
    method EnqueueResponse(m: int)
      requires Valid() && Free(m)
      modifies this`memory, this`responseHead, this`responseTail, this`ssip, this`responses
      ensures Valid() && responses == old(responses) + [m] && ssip
      ensures memory == LinkedLast(old(memory), old(responses), m)
    {
      AppendChain(memory, responseHead, responses, m);
      ChainKept(memory, LinkedLast(memory, responses, m), requestHead, requests);
      memory := SetNext(memory, m, NULL);
      if responseTail != NULL {
        memory := SetNext(memory, responseTail, m);
      } else {
        responseHead := m;
      }
      responseTail := m;
      ssip := true;
      responses := responses + [m];
    }

    /** mcall_respond */
    method Respond(m: int, resp: nat)
      requires Valid() && Free(m)
      modifies this`memory, this`responseHead, this`responseTail, this`ssip, this`responses
      ensures Valid() && responses == old(responses) + [m] && ssip
      ensures KeptBut(old(memory), memory, m, Content(old(memory)[m]).(data := resp))
    {
      EnqueueResponse(m);
      StoreData(m, resp);
    }

    /** The uart read request of mcall_dev_req: the newest request goes to the front. */
    method PushRequest(m: int)
      requires Valid() && Free(m)
      modifies this`memory, this`requestHead, this`requestSize, this`requests, this`arrived
      ensures Valid() && requests == [m] + old(requests) && arrived == old(arrived) + [m]
      ensures Kept(old(memory), memory)
    {
      PrependChain(memory, requestHead, requests, m);
      ChainKept(memory, SetNext(memory, m, requestHead), responseHead, responses);
      memory := SetNext(memory, m, requestHead);
      requestHead := m;
      requestSize := requestSize + 1;
      requests := [m] + requests;
      arrived := arrived + [m];
    }

    /** mcall_dev_resp: the oldest response, and SSIP stays up only if something is left to report. */
    method DevResp() returns (m: int)
      requires Valid()
      modifies this`responseHead, this`responseTail, this`ssip, this`responses
      ensures Valid()
      ensures old(responses) == [] ==> m == NULL && responses == [] && ssip == old(ssip)
      ensures old(responses) != [] ==> m == old(responses[0]) && responses == old(responses[1..])
      ensures old(responses) != [] ==> ssip == if responses == [] then ipiPending else old(ssip)
    {
      m := responseHead;
      if m != NULL {
        var next := memory[m].next;
        UnlinkChain(memory, responseHead, responses, 0);
        assert Without(responses, 0) == responses[1..];
        responseHead := next;
        responses := responses[1..];
        if next == NULL {
          responseTail := NULL;
          ssip := false;
          if ipiPending {
            ssip := true;
          }
        }
      }
    }

    /** mcall_clear_ipi */
    method ClearIpi() returns (was: bool)
      requires Valid()
      modifies this`ssip, this`ipiPending
      ensures Valid() && was == old(ipiPending) && !ipiPending
      ensures ssip == (old(ssip) && responses != [])
    {
      if responseHead == NULL {
        ssip := false;
      }
      was := ipiPending;
      ipiPending := false;
    }

    predicate IsRead(m: int)
      reads this`memory
    {
      m in memory && memory[m].dev == 0 && memory[m].cmd == HTIF_CMD_READ
    }

    /** A uart read is command 0 to device 0. */
    lemma UartRead(m: int)
      ensures IsRead(m) <==> m in memory && memory[m].dev == 0 && memory[m].cmd == 0
    {
    }

    /**
     io_irq_service: the first waiting uart read, k-th in the request queue, gets the byte and becomes the
     newest response.  found is false where the source panics because no request is waiting.
     */
    method IoIrqService(ch: nat) returns (found: bool, ghost k: nat)
      requires Valid() && ch < 0x100
      modifies this
      ensures Valid() && ipiPending == old(ipiPending)
      ensures found <==> exists j :: 0 <= j < old(|requests|) && old(IsRead(requests[j]))
      ensures !found ==> requests == old(requests) && responses == old(responses) && ssip == old(ssip)
      ensures found ==> k < old(|requests|) && old(IsRead(requests[k]))
      ensures found ==> forall j :: 0 <= j < k ==> old(!IsRead(requests[j]))
      ensures found ==> requests == Without(old(requests), k)
      ensures found ==> responses == old(responses) + [old(requests[k])] && ssip
      ensures if found then KeptBut(old(memory), memory, old(requests[k]), Content(old(memory)[old(requests[k])]).(data := 0x100 + ch))
              else memory == old(memory) && arrived == old(arrived)
      ensures found ==> (old(OldestRead(requests[k])) <==> old(OneRead()))
    {
      var m, prev := requestHead, NULL;
      var i: int, n := 0, requestSize;
      k, found := 0, false;
      while i < n
        modifies {}
        invariant 0 <= i <= n
        invariant m == At(requests, i) && prev == At(requests, i - 1)
        invariant forall j :: 0 <= j < i ==> !IsRead(requests[j])
      {
        if memory[m].dev == 0 && memory[m].cmd == HTIF_CMD_READ {
          break;
        }
        prev := m;
        m := memory[m].next;
        i := i + 1;
      }
      if i < n {
        k, found := i, true;
        OldestIfOnly(i);
        TakeRead(prev, m, ch, i);
      }
    }

    /** The body of the search loop once the request is found. */
    method TakeRead(prev: int, m: int, ch: nat, ghost k: nat)
      requires Valid() && k < |requests| && m == At(requests, k) && prev == At(requests, k - 1)
      modifies this`memory, this`requestHead, this`requestSize, this`requests, this`arrived
      modifies this`responseHead, this`responseTail, this`responses, this`ssip
      ensures Valid() && requests == Without(old(requests), k) && responses == old(responses) + [m] && ssip
      ensures KeptBut(old(memory), memory, m, Content(old(memory)[m]).(data := 0x100 + ch))
    {
      StoreData(m, 0x100 + ch);
      Unlink(prev, m, k);
      EnqueueResponse(m);
    }

    method StoreData(m: int, data: nat)
      requires Valid() && m in memory
      modifies this`memory
      ensures Valid() && memory == SetData(old(memory), m, data)
    {
      ChainKept(memory, SetData(memory, m, data), requestHead, requests);
      ChainKept(memory, SetData(memory, m, data), responseHead, responses);
      memory := SetData(memory, m, data);
    }

    /** Takes the k-th request out of the list; prev is the one before it. */
    method Unlink(prev: int, m: int, ghost k: nat)
      requires Valid() && k < |requests| && m == At(requests, k) && prev == At(requests, k - 1)
      modifies this`memory, this`requestHead, this`requestSize, this`requests, this`arrived
      ensures Valid() && requests == Without(old(requests), k) && Free(m)
      ensures Kept(old(memory), memory)
    {
      hide Distinct, Disjoint, Without, Backwards, Kept, Chain, NotIn;
      LinkBefore(memory, requestHead, requests, k);
      UnlinkChain(memory, requestHead, requests, k);
      UnlinkedKept(memory, requests, k);
      WithoutDisjoint(requests, k, responses);
      OtherChain(memory, responseHead, responses, requests, k);
      BackwardsWithout(requests, arrived, k);
      var next := memory[m].next;
      if prev != NULL {
        memory := SetNext(memory, prev, next);
      } else {
        requestHead := next;
      }
      requestSize := requestSize - 1;
      arrived := Without(arrived, |requests| - 1 - k);
      requests := Without(requests, k);
    }

    /** The uart read that has waited longest. */
    ghost predicate OldestRead(m: int)
      reads this
    {
      exists i :: 0 <= i < |arrived| && arrived[i] == m && IsRead(m) && forall j :: 0 <= j < i ==> !IsRead(arrived[j])
    }

    /** No two uart reads are waiting. */
    ghost predicate OneRead()
      reads this
    {
      forall i, j :: 0 <= i < j < |requests| ==> !IsRead(requests[i]) || !IsRead(requests[j])
    }

    /** The first read in the queue came first only if it is the only one. */
    lemma OldestIfOnly(k: nat)
      requires Valid() && k < |requests| && IsRead(requests[k]) && forall j :: 0 <= j < k ==> !IsRead(requests[j])
      ensures OldestRead(requests[k]) <==> OneRead()
    {
      var n := |requests|;
      assert arrived[n - 1 - k] == requests[k];
      if OneRead() {
        forall j | 0 <= j < n - 1 - k
          ensures !IsRead(arrived[j])
        {
          assert arrived[j] == requests[n - 1 - j];
        }
      }
      if OldestRead(requests[k]) {
        var i :| 0 <= i < |arrived| && arrived[i] == requests[k] && forall j :: 0 <= j < i ==> !IsRead(arrived[j]);
        assert arrived[i] == requests[n - 1 - i];
        assert n - 1 - i == k;
        forall b | k < b < n
          ensures !IsRead(requests[b])
        {
          assert arrived[n - 1 - b] == requests[b];
        }
      }
    }

    /** Two reads handed over one after the other: the character goes to the second, and the first waits on. */
    method SecondComesFirst(first: int, second: int, ch: nat)
      requires Valid() && Free(first) && Free(second) && first != second && IsRead(first) && IsRead(second) && ch < 0x100
      modifies this
      ensures Valid() && responses == old(responses) + [second] && requests == [first] + old(requests)
    {
      PushRequest(first);
      PushRequest(second);
      var found;
      ghost var k;
      found, k := IoIrqService(ch);
    }
  }
}
