/** The three interning tables of datastructure.c: `domains`, `clients` and
    `forwarded`. Each is an append-only array of records whose key string is
    unique; `findDomainID`, `findClientID` and `findForwardID` return the
    index of the record holding a key, creating it at the end on a miss. */
module Tables {
  import opened Common

  /** Outcome of DNSSEC validation stored with a domain. */
  datatype DnssecStatus = DnssecUnspecified | DnssecSecure | DnssecInsecure | DnssecBogus | DnssecAbandoned | DnssecUnknown

  /** Reply type recorded per address family. Only REPLY_UNKNOWN is written
      here; the other kinds are set by code outside this model. */
  datatype ReplyType = ReplyUnknown | ReplyKnown(code: nat)

  datatype DomainRecord = DomainRecord(
    magic: int,
    count: int,
    blockedcount: int,
    wildcard: bool,
    domain: string,
    dnssec: DnssecStatus,
    ipv4: Option<string>,
    ipv6: Option<string>,
    reply: seq<ReplyType>)

  datatype ClientRecord = ClientRecord(magic: int, count: int, ip: string)

  datatype ForwardRecord = ForwardRecord(magic: int, count: int, ip: string, failed: int)

  /** The record `findDomainID` creates for a new domain. */
  function NewDomain(domain: string): DomainRecord
  {
    DomainRecord(MAGICBYTE, 1, 0, false, domain, DnssecUnspecified, None, None, [ReplyUnknown, ReplyUnknown])
  }

  function NewClient(ip: string): ClientRecord
  {
    ClientRecord(MAGICBYTE, 1, ip)
  }

  function NewForward(ip: string, count: bool): ForwardRecord
  {
    ForwardRecord(MAGICBYTE, if count then 1 else 0, ip, 0)
  }

  // ---------------------------------------------------------------------
  // What every table shares: its sequence of keys.

  /** Keys pairwise distinct. */
  predicate Distinct(ks: seq<string>)
  {
    forall i, j :: 0 <= i < j < |ks| ==> ks[i] != ks[j]
  }

  /** The key sequence after a find-or-create of `key`: unchanged on a hit,
      extended by `key` on a miss. */
  function Interned(ks: seq<string>, key: string): seq<string>
  {
    if key in ks then ks else ks + [key]
  }

  /** Interning keeps keys distinct, issues a new key the next ID, keeps the
      ID of every key already present, and always makes the key present. */
  lemma InternedFacts(ks: seq<string>, key: string)
    requires Distinct(ks)
    ensures Distinct(Interned(ks, key))
    ensures key in Interned(ks, key)
    ensures key !in ks ==> Find(Interned(ks, key), key) == |ks|
    ensures forall y :: y in ks ==> Find(Interned(ks, key), y) == Find(ks, y)
  {
    var ks' := Interned(ks, key);
    if key !in ks {
      assert ks'[..|ks|] == ks;
      forall y | y in ks ensures Find(ks', y) == Find(ks, y) {
        assert forall k :: 0 <= k < |ks| ==> ks'[k] == ks[k];
      }
    }
  }

  /** Interning the same key twice changes nothing the second time and
      answers the same ID. */
  lemma InternedIdempotent(ks: seq<string>, key: string)
    ensures Interned(Interned(ks, key), key) == Interned(ks, key)
    ensures Find(Interned(Interned(ks, key), key), key) == Find(Interned(ks, key), key)
  {
  }

  /** Two distinct new keys interned in turn get IDs in first-seen order. */
  lemma InternedFirstSeenOrder(ks: seq<string>, k1: string, k2: string)
    requires Distinct(ks) && k1 != k2 && k1 !in ks && k2 !in ks
    ensures var ks2 := Interned(Interned(ks, k1), k2);
      Find(ks2, k1) == |ks| && Find(ks2, k2) == |ks| + 1
  {
    InternedFacts(ks, k1);
    InternedFacts(Interned(ks, k1), k2);
  }

  /** Bytes owned by the interned strings: strlen + 1 per key. */
  function NameBytes(ks: seq<string>): nat
  {
    if ks == [] then 0 else NameBytes(ks[..|ks| - 1]) + |ks[|ks| - 1]| + 1
  }

  lemma NameBytesAppend(ks: seq<string>, key: string)
    ensures NameBytes(ks + [key]) == NameBytes(ks) + |key| + 1
  {
    assert (ks + [key])[..|ks|] == ks;
  }

  /** After interning the distinct new keys `news`, the byte count has grown
      by the sum of their lengths plus one each. */
  lemma {:induction false} NameBytesGrowth(ks: seq<string>, news: seq<string>)
    ensures NameBytes(ks + news) == NameBytes(ks) + NameBytes(news)
    decreases |news|
  {
    if news != [] {
      var init := news[..|news| - 1];
      var last := news[|news| - 1];
      assert ks + news == (ks + init) + [last];
      assert news == init + [last];
      NameBytesGrowth(ks, init);
      NameBytesAppend(ks + init, last);
      NameBytesAppend(init, last);
    } else {
      assert ks + news == ks;
    }
  }

  /** The initial character `domain[0]` the scans compare first; for an
      empty C string that is the terminating NUL. */
  function FirstChar(s: string): char
  {
    if |s| == 0 then '\0' else s[0]
  }

  lemma FirstCharDiffers(a: string, b: string)
    requires FirstChar(a) != FirstChar(b)
    ensures a != b
  {
  }

  /** The scan with the first-character prefilter, as `findDomainID` and
      `findClientID` run it. */
  function PrefilterFind(ks: seq<string>, key: string): int
  {
    if ks == [] then -1
    else if FirstChar(ks[0]) == FirstChar(key) && ks[0] == key then 0
    else
      var r := PrefilterFind(ks[1..], key);
      if r < 0 then -1 else r + 1
  }

  /** The prefilter never changes the answer of the plain `strcmp` scan. */
  lemma {:induction false} PrefilterFindAgrees(ks: seq<string>, key: string)
    ensures PrefilterFind(ks, key) == Find(ks, key)
  {
    if ks != [] {
      PrefilterFindAgrees(ks[1..], key);
    }
  }

  /** A hit at index i of distinct keys: nothing is interned, the ID is i. */
  lemma InternHit(ks: seq<string>, key: string, i: nat)
    requires Distinct(ks) && i < |ks| && ks[i] == key
    ensures Interned(ks, key) == ks && Find(ks, key) == i
  {
  }

  /** A miss: the key is appended, keys stay distinct, the ID is the old
      size and the byte count grows by strlen + 1. */
  lemma InternMiss(ks: seq<string>, key: string)
    requires Distinct(ks) && key !in ks
    ensures Interned(ks, key) == ks + [key] && Distinct(ks + [key])
    ensures Find(ks + [key], key) == |ks|
    ensures NameBytes(ks + [key]) == NameBytes(ks) + |key| + 1
  {
    InternedFacts(ks, key);
    NameBytesAppend(ks, key);
  }

  // ---------------------------------------------------------------------
  // The tables.

  function DomainKeys(rs: seq<DomainRecord>): seq<string>
  {
    seq(|rs|, i requires 0 <= i < |rs| => rs[i].domain)
  }

  function ClientKeys(rs: seq<ClientRecord>): seq<string>
  {
    seq(|rs|, i requires 0 <= i < |rs| => rs[i].ip)
  }

  function ForwardKeys(rs: seq<ForwardRecord>): seq<string>
  {
    seq(|rs|, i requires 0 <= i < |rs| => rs[i].ip)
  }

  /** The invariant of the domain table: distinct keys, the byte counter
      matching them, and every record with its magic byte and a positive
      count. */
  predicate DomainsValid(rs: seq<DomainRecord>, bytes: nat)
  {
    Distinct(DomainKeys(rs)) && bytes == NameBytes(DomainKeys(rs)) &&
    forall i :: 0 <= i < |rs| ==> rs[i].magic == MAGICBYTE && rs[i].count >= 1
  }

  /** Counting a hit keeps the keys and the invariant. */
  lemma DomainsHit(rs: seq<DomainRecord>, bytes: nat, i: nat)
    requires DomainsValid(rs, bytes) && i < |rs|
    ensures var rs' := rs[i := rs[i].(count := rs[i].count + 1)];
      DomainKeys(rs') == DomainKeys(rs) && DomainsValid(rs', bytes)
  {
    var rs' := rs[i := rs[i].(count := rs[i].count + 1)];
    assert DomainKeys(rs') == DomainKeys(rs);
  }

  /** Appending a fresh record for a new key keeps the invariant. */
  lemma DomainsMiss(rs: seq<DomainRecord>, bytes: nat, key: string)
    requires DomainsValid(rs, bytes) && key !in DomainKeys(rs)
    ensures var rs' := rs + [NewDomain(key)];
      DomainKeys(rs') == DomainKeys(rs) + [key] && DomainsValid(rs', bytes + |key| + 1)
  {
    var rs' := rs + [NewDomain(key)];
    var ks := DomainKeys(rs);
    assert DomainKeys(rs') == ks + [key];
    InternMiss(ks, key);
    forall i | 0 <= i < |rs'| ensures rs'[i].magic == MAGICBYTE {
      if i < |rs| {
        assert rs'[i] == rs[i];
      }
    }
  }

  predicate ClientsValid(rs: seq<ClientRecord>, bytes: nat)
  {
    Distinct(ClientKeys(rs)) && bytes == NameBytes(ClientKeys(rs)) &&
    forall i :: 0 <= i < |rs| ==> rs[i].magic == MAGICBYTE && rs[i].count >= 1
  }

  lemma ClientsHit(rs: seq<ClientRecord>, bytes: nat, i: nat)
    requires ClientsValid(rs, bytes) && i < |rs|
    ensures var rs' := rs[i := rs[i].(count := rs[i].count + 1)];
      ClientKeys(rs') == ClientKeys(rs) && ClientsValid(rs', bytes)
  {
    var rs' := rs[i := rs[i].(count := rs[i].count + 1)];
    assert ClientKeys(rs') == ClientKeys(rs);
  }

  lemma ClientsMiss(rs: seq<ClientRecord>, bytes: nat, key: string)
    requires ClientsValid(rs, bytes) && key !in ClientKeys(rs)
    ensures var rs' := rs + [NewClient(key)];
      ClientKeys(rs') == ClientKeys(rs) + [key] && ClientsValid(rs', bytes + |key| + 1)
  {
    var rs' := rs + [NewClient(key)];
    var ks := ClientKeys(rs);
    assert ClientKeys(rs') == ks + [key];
    InternMiss(ks, key);
    forall i | 0 <= i < |rs'| ensures rs'[i].magic == MAGICBYTE {
      if i < |rs| {
        assert rs'[i] == rs[i];
      }
    }
  }

  /** Forward records may carry a zero count: `findForwardID` creates them
      uncounted when `count` is false. */
  predicate ForwardsValid(rs: seq<ForwardRecord>, bytes: nat)
  {
    Distinct(ForwardKeys(rs)) && bytes == NameBytes(ForwardKeys(rs)) &&
    forall i :: 0 <= i < |rs| ==> rs[i].magic == MAGICBYTE && rs[i].count >= 0 && rs[i].failed >= 0
  }

  lemma ForwardsHit(rs: seq<ForwardRecord>, bytes: nat, i: nat)
    requires ForwardsValid(rs, bytes) && i < |rs|
    ensures var rs' := rs[i := rs[i].(count := rs[i].count + 1)];
      ForwardKeys(rs') == ForwardKeys(rs) && ForwardsValid(rs', bytes)
  {
    var rs' := rs[i := rs[i].(count := rs[i].count + 1)];
    assert ForwardKeys(rs') == ForwardKeys(rs);
  }

  lemma ForwardsMiss(rs: seq<ForwardRecord>, bytes: nat, key: string, count: bool)
    requires ForwardsValid(rs, bytes) && key !in ForwardKeys(rs)
    ensures var rs' := rs + [NewForward(key, count)];
      ForwardKeys(rs') == ForwardKeys(rs) + [key] && ForwardsValid(rs', bytes + |key| + 1)
  {
    var rs' := rs + [NewForward(key, count)];
    var ks := ForwardKeys(rs);
    assert ForwardKeys(rs') == ks + [key];
    InternMiss(ks, key);
    forall i | 0 <= i < |rs'| ensures rs'[i].magic == MAGICBYTE {
      if i < |rs| {
        assert rs'[i] == rs[i];
      }
    }
  }

  /** `domains[0 .. counters.domains)` and `memory.domainnames`. */
  class DomainTable {
    var records: seq<DomainRecord>
    var domainNames: nat

    ghost function Keys(): seq<string>
      reads this
    {
      DomainKeys(records)
    }

    ghost predicate Valid()
      reads this
    {
      DomainsValid(records, domainNames)
    }

    constructor ()
      ensures Valid() && records == [] && domainNames == 0
    {
      records, domainNames := [], 0;
    }

    /** `findDomainID(domain)`. */
    method FindDomainId(domain: string) returns (id: nat)
      requires Valid()
      modifies this
      ensures Valid()
      ensures Keys() == Interned(old(Keys()), domain) && id == Find(Keys(), domain)
      ensures domain in old(Keys()) ==>
        records == old(records)[id := old(records)[id].(count := old(records)[id].count + 1)] &&
        domainNames == old(domainNames)
      ensures domain !in old(Keys()) ==>
        id == |old(records)| && records == old(records) + [NewDomain(domain)] &&
        domainNames == old(domainNames) + |domain| + 1
    {
      var rs := records;
      for i := 0 to |rs|
        invariant forall k :: 0 <= k < i ==> rs[k].domain != domain
      {
        // Quick test on the first character before the full comparison.
        if FirstChar(rs[i].domain) != FirstChar(domain) {
          assert rs[i].domain != domain by {
            FirstCharDiffers(rs[i].domain, domain);
          }
          continue;
        }
        if rs[i].domain == domain {
          InternHit(Keys(), domain, i);
          DomainsHit(rs, domainNames, i);
          records := rs[i := rs[i].(count := rs[i].count + 1)];
          return i;
        }
      }
      InternMiss(Keys(), domain);
      DomainsMiss(records, domainNames, domain);
      id := |records|;
      records := records + [NewDomain(domain)];
      domainNames := domainNames + |domain| + 1;
    }
  }

  /** `clients[0 .. counters.clients)` and `memory.clientips`. */
  class ClientTable {
    var records: seq<ClientRecord>
    var clientIps: nat

    ghost function Keys(): seq<string>
      reads this
    {
      ClientKeys(records)
    }

    ghost predicate Valid()
      reads this
    {
      ClientsValid(records, clientIps)
    }

    constructor ()
      ensures Valid() && records == [] && clientIps == 0
    {
      records, clientIps := [], 0;
    }

    /** `findClientID(client)`. */
    method FindClientId(client: string) returns (id: nat)
      requires Valid()
      modifies this
      ensures Valid()
      ensures Keys() == Interned(old(Keys()), client) && id == Find(Keys(), client)
      ensures client in old(Keys()) ==>
        records == old(records)[id := old(records)[id].(count := old(records)[id].count + 1)] &&
        clientIps == old(clientIps)
      ensures client !in old(Keys()) ==>
        id == |old(records)| && records == old(records) + [NewClient(client)] &&
        clientIps == old(clientIps) + |client| + 1
    {
      var rs := records;
      for i := 0 to |rs|
        invariant forall k :: 0 <= k < i ==> rs[k].ip != client
      {
        // Quick test on the first character before the full comparison.
        if FirstChar(rs[i].ip) != FirstChar(client) {
          assert rs[i].ip != client by {
            FirstCharDiffers(rs[i].ip, client);
          }
          continue;
        }
        if rs[i].ip == client {
          InternHit(Keys(), client, i);
          ClientsHit(rs, clientIps, i);
          records := rs[i := rs[i].(count := rs[i].count + 1)];
          return i;
        }
      }
      InternMiss(Keys(), client);
      ClientsMiss(records, clientIps, client);
      id := |records|;
      records := records + [NewClient(client)];
      clientIps := clientIps + |client| + 1;
    }
  }

  /** `forwarded[0 .. counters.forwarded)` and `memory.forwardedips`. */
  class ForwardTable {
    var records: seq<ForwardRecord>
    var forwardedIps: nat

    ghost function Keys(): seq<string>
      reads this
    {
      ForwardKeys(records)
    }

    ghost predicate Valid()
      reads this
    {
      ForwardsValid(records, forwardedIps)
    }

    constructor ()
      ensures Valid() && records == [] && forwardedIps == 0
    {
      records, forwardedIps := [], 0;
    }

    /** `findForwardID(forward, count)`: the occurrence counter moves only
        when `count` is set. */
    method FindForwardId(forward: string, count: bool) returns (id: nat)
      requires Valid()
      modifies this
      ensures Valid()
      ensures Keys() == Interned(old(Keys()), forward) && id == Find(Keys(), forward)
      ensures forward in old(Keys()) ==>
        records == (if count then old(records)[id := old(records)[id].(count := old(records)[id].count + 1)]
                    else old(records)) &&
        forwardedIps == old(forwardedIps)
      ensures forward !in old(Keys()) ==>
        id == |old(records)| && records == old(records) + [NewForward(forward, count)] &&
        forwardedIps == old(forwardedIps) + |forward| + 1
    {
      var rs := records;
      for i := 0 to |rs|
        invariant forall k :: 0 <= k < i ==> rs[k].ip != forward
      {
        if rs[i].ip == forward {
          InternHit(Keys(), forward, i);
          if count {
            ForwardsHit(rs, forwardedIps, i);
            records := rs[i := rs[i].(count := rs[i].count + 1)];
          }
          return i;
        }
      }
      InternMiss(Keys(), forward);
      ForwardsMiss(records, forwardedIps, forward, count);
      id := |records|;
      var rec := ForwardRecord(MAGICBYTE, 0, forward, 0);
      if count {
        rec := rec.(count := 1);
      }
      records := records + [rec];
      forwardedIps := forwardedIps + |forward| + 1;
    }
  }

  /** The same domain looked up twice on a fresh table: both lookups answer
      ID 0 and its counter reads 2. */
  method DomainTwiceScenario(domain: string) returns (id1: nat, id2: nat, count: int, size: nat)
    ensures id1 == 0 && id2 == 0 && count == 2 && size == 1
  {
    var t := new DomainTable();
    id1 := t.FindDomainId(domain);
    id2 := t.FindDomainId(domain);
    count := t.records[0].count;
    size := |t.records|;
  }

  /** A forward destination seen first without counting, then with: the
      counter stays 0 and then reads 1. */
  method ForwardCountScenario(ip: string) returns (id1: nat, id2: nat, before: int, after: int)
    ensures id1 == 0 && id2 == 0 && before == 0 && after == 1
  {
    var t := new ForwardTable();
    id1 := t.FindForwardId(ip, false);
    before := t.records[0].count;
    id2 := t.FindForwardId(ip, true);
    after := t.records[0].count;
  }
}
