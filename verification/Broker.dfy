/** The edge application agent's notification broker: consumers subscribe to notifications of a namespace or of one
    service in it, producers publish, and each subscriber is sent each notification once. */
module Broker {

  import opened Wrappers
  import opened Slices

  // ---------- Names ----------

  datatype URN = URN(namespace: string, id: string)

  /** A common name is `namespace:id`, split at its first colon. */
  function ParseUrn(commonName: string): Option<URN> {
    if commonName == "" then None
    else if commonName[0] == ':' then Some(URN("", commonName[1..]))
    else match ParseUrn(commonName[1..])
      case None => None
      case Some(u) => Some(URN([commonName[0]] + u.namespace, u.id))
  }

  lemma {:induction false} ParsedIffColon(commonName: string)
    ensures ParseUrn(commonName) == None <==> ':' !in commonName
  {
    if commonName == "" {
    } else {
      ParsedIffColon(commonName[1..]);
      assert commonName == [commonName[0]] + commonName[1..];
    }
  }

  /** Exactly the names with a colon have a URN, and the URN is the name again, split where the first colon is. */
  lemma {:induction false} ParsedUrn(commonName: string)
    ensures ParseUrn(commonName) == None <==> ':' !in commonName
    ensures ParseUrn(commonName).Some? ==>
              var u := ParseUrn(commonName).value;
              commonName == u.namespace + [':'] + u.id && ':' !in u.namespace
  {
    ParsedIffColon(commonName);
    if ParseUrn(commonName).Some? {
      var head, tail := commonName[0], commonName[1..];
      assert commonName == [head] + tail;
      if head == ':' {
        assert commonName == "" + [':'] + tail;
      } else {
        ParsedUrn(tail);
        var u := ParseUrn(tail).value;
        assert [head] + (u.namespace + [':'] + u.id) == [head] + u.namespace + [':'] + u.id;
      }
    }
  }

  /** A URN survives being written as a common name iff its namespace has no colon. */
  lemma {:induction false} UrnRoundTrip(u: URN)
    ensures ParseUrn(u.namespace + [':'] + u.id) == Some(u) <==> ':' !in u.namespace
    decreases |u.namespace|
  {
    var cn := u.namespace + [':'] + u.id;
    if ':' in u.namespace {
      ParsedUrn(cn);
    } else if u.namespace == "" {
      assert cn[1..] == u.id;
    } else {
      var v := URN(u.namespace[1..], u.id);
      assert cn[1..] == v.namespace + [':'] + v.id;
      UrnRoundTrip(v);
      assert u.namespace == [u.namespace[0]] + v.namespace;
    }
  }

  // ---------- Subscriptions as a set ----------

  datatype Key = Key(namespace: string, name: string, version: string)

  datatype Descriptor = Descriptor(name: string, version: string, description: string)

  /** What one subscriber list is about: a notification of a whole namespace, or of one service in it. */
  datatype Topic = Topic(key: Key, service: Option<string>)

  type Subs = set<(string, Topic)>

  function TopicOf(namespace: string, service: Option<string>, n: Descriptor): Topic {
    Topic(Key(namespace, n.name, n.version), service)
  }

  datatype Request =
    | Subscribe(consumer: string, namespace: string, service: Option<string>, notifs: seq<Descriptor>)
    | Unsubscribe(consumer: string, namespace: string, service: Option<string>, notifs: seq<Descriptor>)
    | UnsubscribeAll(consumer: string)
    | Register(producer: string, declared: Declaration)
    | Deregister(producer: string)
    | Publish(producer: string, name: string, version: string, encodable: bool)
    | ListSubscriptions(consumer: string)

  predicate Names(namespace: string, service: Option<string>, notifs: seq<Descriptor>, t: Topic) {
    exists i :: 0 <= i < |notifs| && TopicOf(namespace, service, notifs[i]) == t
  }

  /** What a request says about one subscription: it must be there afterwards, it must not, or nothing. */
  function Verdict(req: Request, c: string, t: Topic): Option<bool> {
    match req
    case Subscribe(d, ns, sv, notifs) => if c == d && Names(ns, sv, notifs, t) then Some(true) else None
    case Unsubscribe(d, ns, sv, notifs) => if c == d && Names(ns, sv, notifs, t) then Some(false) else None
    case UnsubscribeAll(d) => if c == d then Some(false) else None
    case _ => None
  }

  function Effect(before: bool, req: Request, c: string, t: Topic): bool {
    match Verdict(req, c, t)
    case Some(v) => v
    case None => before
  }

  /** Whether a subscription is there after some requests. */
  function After(before: bool, requests: seq<Request>, c: string, t: Topic): bool {
    if requests == [] then before else
      Effect(After(before, requests[..|requests| - 1], c, t), requests[|requests| - 1], c, t)
  }

  /** The first of some descriptors that describes `k`. */
  function FirstNamed(namespace: string, notifs: seq<Descriptor>, k: Key): Option<Descriptor> {
    if notifs == [] then None else
      var n := notifs[|notifs| - 1];
      match FirstNamed(namespace, notifs[..|notifs| - 1], k)
      case Some(d) => Some(d)
      case None => if Key(namespace, n.name, n.version) == k then Some(n) else None
  }

  /** A notification keeps the first descriptor it was subscribed with. */
  function Redescribed(before: Option<Descriptor>, req: Request, k: Key): Option<Descriptor> {
    match before
    case Some(d) => Some(d)
    case None => if req.Subscribe? then FirstNamed(req.namespace, req.notifs, k) else None
  }

  /** The descriptor of a notification after some requests. */
  function DescribedBy(before: Option<Descriptor>, requests: seq<Request>, k: Key): Option<Descriptor> {
    if requests == [] then before else
      Redescribed(DescribedBy(before, requests[..|requests| - 1], k), requests[|requests| - 1], k)
  }

  lemma {:induction false} FirstNamedDescribes(namespace: string, notifs: seq<Descriptor>, t: Topic)
    ensures FirstNamed(namespace, notifs, t.key).Some? ==>
              && FirstNamed(namespace, notifs, t.key).value in notifs
              && TopicOf(namespace, t.service, FirstNamed(namespace, notifs, t.key).value) == t
    ensures Names(namespace, t.service, notifs, t) ==> FirstNamed(namespace, notifs, t.key).Some?
    decreases |notifs|
  {
    if notifs == [] {
    } else {
      var n := |notifs| - 1;
      FirstNamedDescribes(namespace, notifs[..n], t);
      NamesStep(namespace, t.service, notifs, n, t);
      assert notifs[..n + 1] == notifs;
    }
  }

  /** Descriptor number `j` of a request subscribes, for whoever asks, to notification `k` of its namespace. */
  predicate NamesAt(req: Request, j: nat, k: Key) {
    && req.Subscribe? && j < |req.notifs| && req.namespace == k.namespace
    && req.notifs[j].name == k.name && req.notifs[j].version == k.version
  }

  /** Descriptor `j` is the first of a request to name `k`. */
  predicate FirstIn(req: Request, j: nat, k: Key) {
    NamesAt(req, j, k) && forall b: nat :: b < j ==> !NamesAt(req, b, k)
  }

  /** Descriptor `j` of request `i` is the first of all to name `k`. */
  ghost predicate NamesFirst(requests: seq<Request>, i: nat, j: nat, k: Key) {
    && i < |requests| && FirstIn(requests[i], j, k)
    && (forall a: nat, b: nat :: a < i ==> !NamesAt(requests[a], b, k))
  }

  lemma {:induction false} FirstNamedExactly(req: Request, k: Key)
    requires req.Subscribe?
    ensures match FirstNamed(req.namespace, req.notifs, k)
            case None => forall j: nat :: !NamesAt(req, j, k)
            case Some(d) => exists j: nat :: FirstIn(req, j, k) && req.notifs[j] == d
    decreases |req.notifs|
  {
    if req.notifs == [] {
    } else {
      var n := |req.notifs| - 1;
      var front := Subscribe(req.consumer, req.namespace, req.service, req.notifs[..n]);
      FirstNamedExactly(front, k);
      assert forall j: nat :: j < n ==> NamesAt(front, j, k) == NamesAt(req, j, k);
      match FirstNamed(req.namespace, front.notifs, k) {
        case Some(d) =>
          var j: nat :| FirstIn(front, j, k) && front.notifs[j] == d;
          assert FirstIn(req, j, k) && req.notifs[j] == d;
        case None =>
          assert forall j: nat :: j < n ==> !NamesAt(req, j, k);
          if NamesAt(req, n, k) {
            assert FirstIn(req, n, k) && req.notifs[n] == FirstNamed(req.namespace, req.notifs, k).value;
          }
      }
    }
  }

  lemma {:induction false} DescribedByFirst(requests: seq<Request>, k: Key)
    ensures match DescribedBy(None, requests, k)
            case None => forall i: nat, j: nat :: i < |requests| ==> !NamesAt(requests[i], j, k)
            case Some(d) => exists i: nat, j: nat :: NamesFirst(requests, i, j, k) && requests[i].notifs[j] == d
    decreases |requests|
  {
    if requests == [] {
    } else {
      var n := |requests| - 1;
      var front := requests[..n];
      DescribedByFirst(front, k);
      match DescribedBy(None, front, k) {
        case Some(d) =>
          var i: nat, j: nat :| NamesFirst(front, i, j, k) && front[i].notifs[j] == d;
          assert NamesFirst(requests, i, j, k) && requests[i].notifs[j] == d;
        case None =>
          assert forall i: nat, j: nat :: i < n ==> !NamesAt(requests[i], j, k) by {
            assert forall i :: 0 <= i < n ==> front[i] == requests[i];
          }
          if requests[n].Subscribe? {
            FirstNamedExactly(requests[n], k);
            if FirstNamed(requests[n].namespace, requests[n].notifs, k).Some? {
              var d := FirstNamed(requests[n].namespace, requests[n].notifs, k).value;
              var j: nat :| FirstIn(requests[n], j, k) && requests[n].notifs[j] == d;
              assert NamesFirst(requests, n, j, k) && requests[n].notifs[j] == d;
            }
          }
      }
    }
  }

  /** The descriptor of a notification after any run is the first of all it was subscribed with. */
  lemma FirstRequestDecides(requests: seq<Request>, k: Key, d: Descriptor)
    ensures DescribedBy(None, requests, k) == Some(d) <==>
            exists i: nat, j: nat :: NamesFirst(requests, i, j, k) && requests[i].notifs[j] == d
  {
    DescribedByFirst(requests, k);
    if i: nat, j: nat :| NamesFirst(requests, i, j, k) && requests[i].notifs[j] == d {
      assert NamesAt(requests[i], j, k);
      var a: nat, b: nat :|
        NamesFirst(requests, a, b, k) && DescribedBy(None, requests, k) == Some(requests[a].notifs[b]);
      assert NamesAt(requests[a], b, k);
    }
  }

  /** A request of `c` to subscribe to `t`: same namespace and service, and a descriptor of that name and version. */
  predicate Subscribes(req: Request, c: string, t: Topic) {
    && req.Subscribe? && req.consumer == c && req.namespace == t.key.namespace && req.service == t.service
    && exists j :: 0 <= j < |req.notifs| && req.notifs[j].name == t.key.name && req.notifs[j].version == t.key.version
  }

  /** A request of `c` to unsubscribe from `t`, or from everything. */
  predicate Cancels(req: Request, c: string, t: Topic) {
    || (req.UnsubscribeAll? && req.consumer == c)
    || (&& req.Unsubscribe? && req.consumer == c && req.namespace == t.key.namespace && req.service == t.service
        && exists j ::
             0 <= j < |req.notifs| && req.notifs[j].name == t.key.name && req.notifs[j].version == t.key.version)
  }

  /** Request `i` subscribes and none after it cancels. */
  predicate StandsSince(requests: seq<Request>, i: nat, c: string, t: Topic) {
    i < |requests| && Subscribes(requests[i], c, t) && forall j :: i < j < |requests| ==> !Cancels(requests[j], c, t)
  }

  lemma VerdictExactly(req: Request, c: string, t: Topic)
    ensures Verdict(req, c, t) ==
            if Subscribes(req, c, t) then Some(true) else if Cancels(req, c, t) then Some(false) else None
  {
    if (req.Subscribe? || req.Unsubscribe?) && Names(req.namespace, req.service, req.notifs, t) {
      var i :| 0 <= i < |req.notifs| && TopicOf(req.namespace, req.service, req.notifs[i]) == t;
      assert req.notifs[i].name == t.key.name && req.notifs[i].version == t.key.version;
    }
    if Subscribes(req, c, t) || (req.Unsubscribe? && Cancels(req, c, t)) {
      var j :| 0 <= j < |req.notifs| && req.notifs[j].name == t.key.name && req.notifs[j].version == t.key.version;
      assert TopicOf(req.namespace, req.service, req.notifs[j]) == t;
    }
  }

  /** After any run a consumer is subscribed iff some request of its own subscribed it and no later one cancelled that. */
  lemma {:induction false} SubscribedExactly(requests: seq<Request>, c: string, t: Topic)
    ensures After(false, requests, c, t) <==> exists i: nat :: StandsSince(requests, i, c, t)
    decreases |requests|
  {
    if requests == [] {
    } else {
      var n := |requests| - 1;
      var front := requests[..n];
      SubscribedExactly(front, c, t);
      VerdictExactly(requests[n], c, t);
      if Subscribes(requests[n], c, t) {
        assert StandsSince(requests, n, c, t);
      } else {
        forall i: nat
          ensures StandsSince(requests, i, c, t) <==> !Cancels(requests[n], c, t) && StandsSince(front, i, c, t)
        {
          assert forall j :: 0 <= j < n ==> front[j] == requests[j];
        }
      }
    }
  }

  /** Whatever is subscribed to has a descriptor. */
  lemma {:induction false} SubscribedIsDescribed(requests: seq<Request>, c: string, t: Topic)
    requires After(false, requests, c, t)
    ensures DescribedBy(None, requests, t.key).Some?
    decreases |requests|
  {
    var n := |requests| - 1;
    match Verdict(requests[n], c, t)
    case Some(_) => FirstNamedDescribes(requests[n].namespace, requests[n].notifs, t);
    case None => SubscribedIsDescribed(requests[..n], c, t);
  }

  /** The declared notifications that have a name and a version. */
  function Usable(declared: seq<Descriptor>): seq<Descriptor> {
    if declared == [] then [] else
      var n := declared[|declared| - 1];
      Usable(declared[..|declared| - 1]) + if n.name == "" || n.version == "" then [] else [n]
  }

  /** What a registered producer declares, if anything. */
  type Declaration = Option<seq<Descriptor>>

  function UsablePart(declared: Declaration): Declaration {
    if declared == None then None else Some(Usable(declared.value))
  }

  /** Requests that concern a producer; a name without a colon cannot be registered. */
  predicate ConcernsProducer(req: Request, producer: string) {
    (req.Deregister? && req.producer == producer) || (req.Register? && req.producer == producer && ':' in producer)
  }

  /** A producer's registration after a request. */
  function Reregistered(before: Option<Declaration>, req: Request, producer: string): Option<Declaration> {
    if !ConcernsProducer(req, producer) then before
    else if req.Register? then Some(UsablePart(req.declared)) else None
  }

  /** A producer's registration after some requests. */
  function RegisteredAs(before: Option<Declaration>, requests: seq<Request>, producer: string): Option<Declaration> {
    if requests == [] then before else
      Reregistered(RegisteredAs(before, requests[..|requests| - 1], producer), requests[|requests| - 1], producer)
  }

  /** Request `i` is the last to concern a producer. */
  predicate LastWord(requests: seq<Request>, i: nat, producer: string) {
    && i < |requests| && ConcernsProducer(requests[i], producer)
    && forall j :: i < j < |requests| ==> !ConcernsProducer(requests[j], producer)
  }

  /** A producer is registered iff the last request that concerns it is a registration, and with what that declares. */
  lemma {:induction false} LastWordDecides(
      before: Option<Declaration>, requests: seq<Request>, i: nat, producer: string)
    requires LastWord(requests, i, producer)
    ensures RegisteredAs(before, requests, producer) ==
            if requests[i].Register? then Some(UsablePart(requests[i].declared)) else None
    decreases |requests|
  {
    var n := |requests| - 1;
    if i == n {
    } else {
      assert requests[..n][i] == requests[i];
      LastWordDecides(before, requests[..n], i, producer);
    }
  }

  lemma {:induction false} NoWordNoChange(before: Option<Declaration>, requests: seq<Request>, producer: string)
    requires forall j :: 0 <= j < |requests| ==> !ConcernsProducer(requests[j], producer)
    ensures RegisteredAs(before, requests, producer) == before
    decreases |requests|
  {
    if requests == [] {
    } else {
      NoWordNoChange(before, requests[..|requests| - 1], producer);
    }
  }

  /** Request `i` is the last to concern the subscription. */
  predicate Decides(requests: seq<Request>, i: nat, c: string, t: Topic) {
    && i < |requests| && Verdict(requests[i], c, t) != None
    && forall j :: i < j < |requests| ==> Verdict(requests[j], c, t) == None
  }

  predicate Untouched(requests: seq<Request>, c: string, t: Topic) {
    forall j :: 0 <= j < |requests| ==> Verdict(requests[j], c, t) == None
  }

  /** The last request that concerns a subscription decides it. */
  lemma {:induction false} LastRequestDecides(before: bool, requests: seq<Request>, i: nat, c: string, t: Topic)
    requires Decides(requests, i, c, t)
    ensures Verdict(requests[i], c, t) == Some(After(before, requests, c, t))
    decreases |requests|
  {
    var n := |requests| - 1;
    if i < n {
      var front := requests[..n];
      assert front[i] == requests[i];
      LastRequestDecides(before, front, i, c, t);
    }
  }

  /** If no request concerns a subscription it stays as it was; otherwise one is the last that does. */
  lemma {:induction false} SomeRequestDecides(before: bool, requests: seq<Request>, c: string, t: Topic)
    ensures Untouched(requests, c, t) ==> After(before, requests, c, t) == before
    ensures Untouched(requests, c, t) || exists i: nat :: Decides(requests, i, c, t)
  {
    if requests == [] {
    } else {
      var n := |requests| - 1;
      var front := requests[..n];
      SomeRequestDecides(before, front, c, t);
      if Verdict(requests[n], c, t) != None {
        assert Decides(requests, n, c, t);
      } else if !Untouched(front, c, t) {
        var i: nat :| Decides(front, i, c, t);
        assert front[i] == requests[i];
        assert Decides(requests, i, c, t);
      }
    }
  }

  /** The requests a consumer makes for itself. */
  function Own(requests: seq<Request>, c: string): seq<Request> {
    if requests == [] then [] else
      var req := requests[|requests| - 1];
      Own(requests[..|requests| - 1], c) +
      if (req.Subscribe? || req.Unsubscribe? || req.UnsubscribeAll?) && req.consumer == c then [req] else []
  }

  /** Consumers do not interfere: all that matters to one is its own requests. */
  lemma {:induction false} ConsumersAreIndependent(before: bool, requests: seq<Request>, c: string, t: Topic)
    ensures After(before, requests, c, t) == After(before, Own(requests, c), c, t)
  {
    if requests == [] {
    } else {
      var n := |requests| - 1;
      ConsumersAreIndependent(before, requests[..n], c, t);
      var own := Own(requests[..n], c);
      assert (own + [requests[n]])[..|own|] == own;
      assert own + [] == own;
    }
  }

  lemma NamesStep(namespace: string, service: Option<string>, notifs: seq<Descriptor>, i: nat, t: Topic)
    requires i < |notifs|
    ensures Names(namespace, service, notifs[..i + 1], t) <==>
            Names(namespace, service, notifs[..i], t) || TopicOf(namespace, service, notifs[i]) == t
  {
    if Names(namespace, service, notifs[..i + 1], t) {
      var j :| 0 <= j < i + 1 && TopicOf(namespace, service, notifs[..i + 1][j]) == t;
      assert j < i ==> notifs[..i][j] == notifs[..i + 1][j];
    }
    if Names(namespace, service, notifs[..i], t) {
      var j :| 0 <= j < i && TopicOf(namespace, service, notifs[..i][j]) == t;
      assert notifs[..i + 1][j] == notifs[..i][j];
    }
    assert notifs[..i + 1][i] == notifs[i];
  }

  // ---------- Listings ----------

  datatype Entry = Entry(urn: URN, notifications: seq<Descriptor>)

  predicate DistinctUrns(list: seq<Entry>) {
    && (forall i, j :: 0 <= i < j < |list| ==> list[i].urn != list[j].urn)
    && (forall i :: 0 <= i < |list| ==> list[i].notifications != [])
  }

  function EntryCount(e: Entry, u: URN, d: Descriptor): nat {
    if e.urn == u then multiset(e.notifications)[d] else 0
  }

  /** How often a listing shows a notification under a URN. */
  function Count(list: seq<Entry>, u: URN, d: Descriptor): nat {
    if list == [] then 0 else Count(list[..|list| - 1], u, d) + EntryCount(list[|list| - 1], u, d)
  }

  lemma {:induction false} CountUpdate(list: seq<Entry>, i: nat, e: Entry, u: URN, d: Descriptor)
    requires i < |list|
    ensures Count(list[i := e], u, d) + EntryCount(list[i], u, d) == Count(list, u, d) + EntryCount(e, u, d)
    decreases |list|
  {
    var n := |list| - 1;
    if i < n {
      CountUpdate(list[..n], i, e, u, d);
      assert list[i := e][..n] == list[..n][i := e];
    } else {
      assert list[i := e][..n] == list[..n];
    }
  }

  /** Adds a notification under its URN: to the entry there is, or in a new one. */
  method AddToList(list: seq<Entry>, urn: URN, n: Descriptor) returns (r: seq<Entry>)
    requires DistinctUrns(list)
    ensures DistinctUrns(r)
    ensures forall u, d :: Count(r, u, d) == Count(list, u, d) + (if u == urn && d == n then 1 else 0)
  {
    for i := 0 to |list|
      invariant forall j :: 0 <= j < i ==> list[j].urn != urn
    {
      if list[i].urn == urn {
        var e := Entry(urn, list[i].notifications + [n]);
        r := list[i := e];
        forall u, d
          ensures Count(r, u, d) == Count(list, u, d) + (if u == urn && d == n then 1 else 0)
        {
          CountUpdate(list, i, e, u, d);
        }
        return;
      }
    }
    r := list + [Entry(urn, [n])];
    assert r[..|list|] == list;
  }

  function UrnOf(t: Topic): URN {
    URN(t.key.namespace, if t.service == None then "" else t.service.value)
  }

  /** A descriptor describes the key it is kept for. */
  predicate Describes(d: Descriptor, k: Key) {
    d.name == k.name && d.version == k.version
  }

  function Once(holds: bool): nat {
    if holds then 1 else 0
  }

  /** How often a listing ought to show a notification: once for a subscription to the service, and once for one to the
      namespace, which goes under the empty ID. */
  function Expected(subs: Subs, notification: map<Key, Descriptor>, c: string, u: URN, d: Descriptor): nat {
    var k := Key(u.namespace, d.name, d.version);
    if k in notification && notification[k] == d then
      Once(u.id == "" && (c, Topic(k, None)) in subs) + Once((c, Topic(k, Some(u.id))) in subs)
    else 0
  }

  lemma ExpectedStep(subs: Subs, notification: map<Key, Descriptor>, c: string, t: Topic, u: URN, d: Descriptor)
    requires t.key in notification && Describes(notification[t.key], t.key) && (c, t) !in subs
    ensures Expected(subs + {(c, t)}, notification, c, u, d) ==
            Expected(subs, notification, c, u, d) + (if UrnOf(t) == u && notification[t.key] == d then 1 else 0)
  {
    var k := Key(u.namespace, d.name, d.version);
    if t.key == k {
      match t.service
      case None => assert t == Topic(k, None);
      case Some(id) => assert t == Topic(k, Some(id));
    }
  }

  // ---------- The broker ----------

  /** Exactly the usable declarations are kept, each as often as declared. */
  lemma {:induction false} UsableExactly(declared: seq<Descriptor>, n: Descriptor)
    ensures multiset(Usable(declared))[n] == if n.name == "" || n.version == "" then 0 else multiset(declared)[n]
    decreases |declared|
  {
    if declared == [] {
    } else {
      var front := declared[..|declared| - 1];
      UsableExactly(front, n);
      assert declared == front + [declared[|declared| - 1]];
    }
  }

  method ValidServiceNotifications(declared: seq<Descriptor>) returns (kept: seq<Descriptor>)
    ensures kept == Usable(declared)
  {
    kept := [];
    for i := 0 to |declared|
      invariant kept == Usable(declared[..i])
    {
      var n := declared[i];
      assert declared[..i + 1][..i] == declared[..i];
      if n.name != "" && n.version != "" {
        kept := kept + [n];
      }
    }
    assert declared[..|declared|] == declared;
  }

  datatype Status = Created | NoContent | Accepted | Unauthorized | NotFound | InternalError

  class Broker {
    /** Whether the maps behind the broker have been made. */
    const ready: bool
    /** A list per notification and per service of a notification. */
    var lists: map<Topic, Slice>
    var notification: map<Key, Descriptor>
    /** The registered producers and the notifications they declare, if they declare any. */
    var services: map<string, Declaration>
    /** The arrays behind the lists; each belongs to one topic. */
    ghost var owner: map<array<string>, Topic>
    ghost var subs: Subs

    ghost predicate Owned(t: Topic)
      reads `lists, `owner, `notification
    {
      t in lists ==> IsSlice(lists[t]) && lists[t].arr in owner && owner[lists[t].arr] == t && t.key in notification
    }

    ghost predicate Described(k: Key)
      reads `lists, `owner, `notification
    {
      k in notification ==>
        Topic(k, None) in lists && Describes(notification[k], k)
    }

    ghost predicate Listed(t: Topic)
      requires Owned(t)
      reads `lists, `owner, `notification, `subs, owner.Keys
    {
      && (t in lists ==> NoDuplicates(Contents(lists[t])))
      && (forall c :: (c, t) in subs <==> t in lists && c in Contents(lists[t]))
    }

    ghost function List(t: Topic): seq<string>
      requires Owned(t)
      reads `lists, `owner, `notification, owner.Keys
    {
      if t in lists then Contents(lists[t]) else []
    }

    /** A producer's registration. */
    ghost function ServiceOf(producer: string): Option<Declaration>
      reads `services
    {
      if producer in services then Some(services[producer]) else None
    }

    /** The descriptor kept for a notification. */
    ghost function DescriptorOf(k: Key): Option<Descriptor>
      reads `notification
    {
      if k in notification then Some(notification[k]) else None
    }

    ghost predicate Valid()
      reads `lists, `owner, `notification, `subs, owner.Keys
    {
      && (forall t :: Owned(t))
      && (forall k :: Described(k))
      && (forall t :: Listed(t))
    }

    constructor (ready: bool)
      ensures Valid() && fresh(owner.Keys) && subs == {} && services == map[] && notification == map[]
      ensures this.ready == ready
    {
      this.ready := ready;
      lists, notification, services := map[], map[], map[];
      owner, subs := map[], {};
    }

    /** An empty list for a topic that has none. */
    method AddTopic(t: Topic, n: Descriptor)
      requires Valid() && t !in lists && Describes(n, t.key)
      requires t.key in notification || t.service == None
      modifies this
      ensures Valid() && subs == old(subs) && fresh(owner.Keys - old(owner.Keys)) && services == old(services)
      ensures lists.Keys == old(lists.Keys) + {t}
      ensures forall u :: List(u) == old(List(u))
      ensures notification == if t.key in old(notification) then old(notification) else old(notification)[t.key := n]
    {
      var s := NewSlice();
      lists, owner := lists[t := s], owner[s.arr := t];
      if t.key !in notification {
        notification := notification[t.key := n];
      }
      assert forall u :: old(Owned(u)) ==> Owned(u);
      assert forall k :: old(Described(k)) ==> Described(k);
      assert forall u :: old(Listed(u)) ==> Listed(u);
    }

    /** Nothing but the list of `t` has changed. */
    twostate predicate OnlyListOf(t: Topic)
      requires old(Valid()) && Valid()
      reads this, owner.Keys
    {
      && fresh(owner.Keys - old(owner.Keys)) && services == old(services) && notification == old(notification)
      && lists.Keys == old(lists.Keys) && forall u :: u != t ==> List(u) == old(List(u))
    }

    /** Storing a list for `t` in its own array or a new one, with the subscriptions to match, keeps everything valid. */
    twostate lemma Stored(t: Topic, new r: Slice)
      requires old(Valid()) && t in old(lists) && lists == old(lists)[t := r] && owner == old(owner)[r.arr := t]
      requires r.arr == old(lists[t]).arr || fresh(r.arr)
      requires IsSlice(r) && NoDuplicates(Contents(r))
      requires services == old(services) && notification == old(notification)
      requires forall arr :: arr in old(owner) && arr != old(lists[t]).arr ==> unchanged(arr)
      requires forall c, u :: (c, u) in subs <==> if u == t then c in Contents(r) else (c, u) in old(subs)
      ensures Valid() && OnlyListOf(t) && List(t) == Contents(r)
    {
      forall u
        ensures Owned(u)
      {
        assert old(Owned(u)) && old(Owned(t));
      }
      assert forall k :: old(Described(k)) ==> Described(k);
      forall u | u != t
        ensures Listed(u) && List(u) == old(List(u))
      {
        assert old(Owned(u)) && old(Listed(u)) && old(Owned(t));
      }
      assert Listed(t) && lists.Keys == old(lists.Keys);
      assert old(Owned(t)) && owner.Keys == old(owner.Keys) + {r.arr};
    }

    /** Appending may write in place or move the list to a new array. */
    method Put(c: string, t: Topic)
      requires Valid() && t in lists && c !in List(t)
      modifies this, owner.Keys
      ensures Valid() && OnlyListOf(t)
      ensures List(t) == old(List(t)) + [c] && subs == old(subs) + {(c, t)}
    {
      assert Owned(t) && Listed(t);
      var r := Append(lists[t], c);
      lists, owner, subs := lists[t := r], owner[r.arr := t], subs + {(c, t)};
      Stored(t, r);
    }

    method Drop(c: string, t: Topic)
      requires Valid() && t in lists
      modifies this, owner.Keys
      ensures Valid() && OnlyListOf(t)
      ensures owner == old(owner)
      ensures List(t) == Without(old(List(t)), c) && subs == old(subs) - {(c, t)}
    {
      assert Owned(t) && Listed(t);
      var index := IndexOf(lists[t], c);
      if index != -1 {
        ghost var l := List(t);
        CutIsWithout(lists[t].arr[..], lists[t].len, index);
        WithoutKeepsNoDuplicates(l, c);
        WithoutAll(l, c);
        var r := RemoveAt(lists[t], index);
        assert Contents(r) == Without(l, c);
        lists, subs := lists[t := r], subs - {(c, t)};
        Stored(t, r);
      } else {
        WithoutAbsent(List(t), c);
      }
    }

    /** The structures a subscription needs; a notification keeps the first descriptor it was subscribed with. */
    method Init(t: Topic, n: Descriptor)
      requires Valid() && Describes(n, t.key)
      modifies this
      ensures Valid() && subs == old(subs) && fresh(owner.Keys - old(owner.Keys)) && services == old(services)
      ensures lists.Keys == old(lists.Keys) + {t, Topic(t.key, None)}
      ensures forall u :: List(u) == old(List(u))
      ensures notification == if t.key in old(notification) then old(notification) else old(notification)[t.key := n]
    {
      assert Described(t.key) && Owned(Topic(t.key, None));
      if t.key !in notification {
        AddTopic(Topic(t.key, None), n);
      }
      if t !in lists {
        AddTopic(t, n);
      }
    }

    /** One notification of a subscription request. */
    method SubscribeOne(c: string, t: Topic, n: Descriptor)
      requires Valid() && Describes(n, t.key)
      modifies this, owner.Keys
      ensures Valid() && fresh(owner.Keys - old(owner.Keys)) && services == old(services)
      ensures subs == old(subs) + {(c, t)}
      ensures List(t) == old(List(t)) + if (c, t) in old(subs) then [] else [c]
      ensures forall u :: u != t ==> List(u) == old(List(u))
      ensures notification == if t.key in old(notification) then old(notification) else old(notification)[t.key := n]
    {
      Init(t, n);
      assert Owned(t) && Listed(t);
      var index := IndexOf(lists[t], c);
      if index == -1 {
        Put(c, t);
      }
    }

    method AddSubscription(c: string, namespace: string, service: Option<string>, notifs: seq<Descriptor>)
      returns (status: Status)
      requires Valid()
      modifies this, owner.Keys
      ensures Valid() && fresh(owner.Keys - old(owner.Keys)) && services == old(services)
      ensures status == if ready then Created else InternalError
      ensures forall d, t :: (d, t) in subs <==>
                             (d, t) in old(subs) || (ready && d == c && Names(namespace, service, notifs, t))
      ensures forall k :: DescriptorOf(k) ==
                          if ready then Redescribed(old(DescriptorOf(k)), Subscribe(c, namespace, service, notifs), k)
                          else old(DescriptorOf(k))
    {
      if !ready {
        return InternalError;
      }
      for i := 0 to |notifs|
        invariant Valid() && fresh(owner.Keys - old(owner.Keys)) && services == old(services)
        invariant forall d, t :: (d, t) in subs <==>
                                 (d, t) in old(subs) || (d == c && Names(namespace, service, notifs[..i], t))
        invariant forall k :: DescriptorOf(k) ==
                              Redescribed(old(DescriptorOf(k)), Subscribe(c, namespace, service, notifs[..i]), k)
      {
        var t := TopicOf(namespace, service, notifs[i]);
        SubscribeOne(c, t, notifs[i]);
        assert notifs[..i + 1][..i] == notifs[..i];
        forall u {
          NamesStep(namespace, service, notifs, i, u);
        }
      }
      assert notifs[..|notifs|] == notifs;
      return Created;
    }

    method RemoveSubscription(c: string, namespace: string, service: Option<string>, notifs: seq<Descriptor>)
      returns (status: Status)
      requires Valid()
      modifies this, owner.Keys
      ensures Valid() && owner == old(owner)
      ensures services == old(services) && notification == old(notification)
      ensures status == if ready then NoContent else InternalError
      ensures forall d, t :: (d, t) in subs <==>
                             (d, t) in old(subs) && !(ready && d == c && Names(namespace, service, notifs, t))
    {
      if !ready {
        return InternalError;
      }
      for i := 0 to |notifs|
        invariant Valid() && owner == old(owner)
        invariant services == old(services) && notification == old(notification)
        invariant forall d, t :: (d, t) in subs <==>
                                 (d, t) in old(subs) && !(d == c && Names(namespace, service, notifs[..i], t))
      {
        var t := TopicOf(namespace, service, notifs[i]);
        assert Owned(t) && Listed(t);
        if t in lists {
          Drop(c, t);
        }
        forall u {
          NamesStep(namespace, service, notifs, i, u);
        }
      }
      assert notifs[..|notifs|] == notifs;
      return NoContent;
    }

    /** RemoveSubscriber on one list, stored back when it changed. Lists without duplicates never make it panic. */
    method Sweep(c: string, t: Topic)
      requires Valid() && t in lists
      modifies this, owner.Keys
      ensures Valid() && OnlyListOf(t)
      ensures owner == old(owner)
      ensures List(t) == Without(old(List(t)), c) && subs == old(subs) - {(c, t)}
    {
      assert Owned(t) && Listed(t);
      ghost var l := List(t);
      var r, changed, panicked := RemoveSubscriber(lists[t], c);
      SweptIsWithout(l, c);
      assert !panicked;
      WithoutKeepsNoDuplicates(l, c);
      WithoutAll(l, c);
      if !changed {
        WithoutAbsent(l, c);
      }
      lists, subs := lists[t := r], subs - {(c, t)};
      Stored(t, r);
    }

    /** Maps are ranged over in no particular order. */
    method RemoveAll(c: string) returns (status: Status)
      requires Valid()
      modifies this, owner.Keys
      ensures Valid() && owner == old(owner)
      ensures services == old(services) && notification == old(notification)
      ensures status == if ready then NoContent else InternalError
      ensures forall d, t :: (d, t) in subs <==> (d, t) in old(subs) && !(ready && d == c)
      ensures ready ==> forall t :: List(t) == Without(old(List(t)), c)
    {
      if !ready {
        return InternalError;
      }
      var todo := lists.Keys;
      while todo != {}
        invariant Valid() && owner == old(owner) && lists.Keys == old(lists.Keys) && todo <= lists.Keys
        invariant services == old(services) && notification == old(notification)
        invariant forall t :: List(t) == if t in todo then old(List(t)) else Without(old(List(t)), c)
        decreases |todo|
      {
        var t :| t in todo;
        Sweep(c, t);
        todo := todo - {t};
      }
      forall d, t
        ensures (d, t) in subs <==> (d, t) in old(subs) && d != c
      {
        assert Listed(t) && old(Listed(t));
        WithoutElements(old(List(t)), c, d);
      }
      return NoContent;
    }

    method AddService(commonName: string, declared: Declaration) returns (ok: bool)
      requires Valid()
      modifies this`services
      ensures Valid() && ok == (ready && ':' in commonName)
      ensures services == if ok then old(services)[commonName := UsablePart(declared)] else old(services)
    {
      ParsedUrn(commonName);
      ok := ready && ParseUrn(commonName).Some?;
      if ok {
        var kept := declared;
        if declared.Some? {
          var usable := ValidServiceNotifications(declared.value);
          kept := Some(usable);
        }
        services := services[commonName := kept];
      }
    }

    method RemoveService(commonName: string) returns (status: Status)
      requires Valid()
      modifies this`services
      ensures Valid() && services == if ready then old(services) - {commonName} else old(services)
      ensures status == if !ready then InternalError else if commonName in old(services) then NoContent else NotFound
    {
      if !ready {
        return InternalError;
      }
      status := if commonName in services then NoContent else NotFound;
      services := services - {commonName};
    }

    /** What a producer's notification is filed under, if it may publish it at all. */
    function Filed(producer: string, name: string, version: string, encodable: bool): Result<(Key, string), Status>
      reads this
    {
      if !ready then Failure(InternalError) else
        match ParseUrn(producer)
        case None => Failure(Unauthorized)
        case Some(u) =>
          if !encodable then Failure(Unauthorized)
          else if producer !in services then Failure(InternalError)
          else Success((Key(u.namespace, name, version), u.id))
    }

    /** Sends to every subscriber of the namespace or of the service, in this order, each once. Merging the two lists may
        write behind the end of the first; no list changes by it. */
    method PublishNotification(producer: string, name: string, version: string, encodable: bool)
      returns (status: Status, sent: seq<string>)
      requires Valid()
      modifies owner.Keys
      ensures Valid() && forall t :: List(t) == old(List(t))
      ensures NoDuplicates(sent)
      ensures !ready ==> status == InternalError
      ensures ready && (':' !in producer || !encodable) ==> status == Unauthorized
      ensures ready && ':' in producer && encodable ==>
                status == if producer in services then Accepted else InternalError
      ensures status != Accepted ==> sent == []
      ensures match Filed(producer, name, version, encodable)
              case Failure(e) => status == e && sent == []
              case Success((k, id)) =>
                && status == Accepted
                && forall c :: c in sent <==> (c, Topic(k, None)) in subs || (c, Topic(k, Some(id))) in subs
    {
      sent := [];
      ParsedUrn(producer);
      var filed := Filed(producer, name, version, encodable);
      if filed.Failure? {
        return filed.error, [];
      }
      var (k, id) := filed.value;
      var ns, sv := Topic(k, None), Topic(k, Some(id));
      assert Owned(ns) && Owned(sv) && Listed(ns) && Listed(sv) && Described(k);
      if k !in notification {
        return Accepted, [];
      }
      if sv !in lists {
        return Accepted, lists[ns].arr[..lists[ns].len];
      }
      ghost var a, b := List(ns), List(sv);
      var full := UniqueSubs(lists[ns], lists[sv]);
      OthersElements(a, b);
      OthersKeepNoDuplicates(a, b);
      status, sent := Accepted, full.arr[..full.len];
      forall t
        ensures List(t) == old(List(t)) && Listed(t)
      {
        assert old(Owned(t)) && old(Listed(t)) && old(Owned(ns));
      }
      assert forall t :: Owned(t);
    }

    /** The subscriptions of a consumer, grouped by URN. */
    method GetSubscriptions(c: string) returns (r: Option<seq<Entry>>)
      requires Valid()
      ensures r == None <==> !ready
      ensures ready ==> DistinctUrns(r.value)
      ensures ready ==> forall u, d :: Count(r.value, u, d) == Expected(subs, notification, c, u, d)
    {
      if !ready {
        return None;
      }
      var list: seq<Entry> := [];
      ghost var seen: Subs := {};
      var todo := lists.Keys;
      forall t
        ensures Listed(t) && (t !in lists ==> forall d :: (d, t) !in subs)
      {
        assert Owned(t);
      }
      while todo != {}
        invariant todo <= lists.Keys && DistinctUrns(list)
        invariant forall d, t :: (d, t) in seen <==> d == c && (c, t) in subs && t !in todo
        invariant forall u, d :: Count(list, u, d) == Expected(seen, notification, c, u, d)
        decreases |todo|
      {
        var t :| t in todo;
        todo := todo - {t};
        assert Owned(t) && Listed(t) && Described(t.key);
        var index := IndexOf(lists[t], c);
        if index != -1 {
          list := AddToList(list, UrnOf(t), notification[t.key]);
          forall u, d {
            ExpectedStep(seen, notification, c, t, u, d);
          }
          seen := seen + {(c, t)};
        }
      }
      return Some(list);
    }

    method Handle(req: Request)
      requires Valid()
      modifies this, owner.Keys
      ensures Valid() && fresh(owner.Keys - old(owner.Keys))
      ensures forall c, t :: ((c, t) in subs) ==
                             if ready then Effect((c, t) in old(subs), req, c, t) else (c, t) in old(subs)
      ensures forall k :: DescriptorOf(k) ==
                          if ready then Redescribed(old(DescriptorOf(k)), req, k) else old(DescriptorOf(k))
      ensures forall p :: ServiceOf(p) == if ready then Reregistered(old(ServiceOf(p)), req, p) else old(ServiceOf(p))
    {
      match req
      case Subscribe(c, ns, sv, notifs) => {
        var _ := AddSubscription(c, ns, sv, notifs);
      }
      case Unsubscribe(c, ns, sv, notifs) => {
        var _ := RemoveSubscription(c, ns, sv, notifs);
      }
      case UnsubscribeAll(c) => {
        var _ := RemoveAll(c);
      }
      case Register(producer, declared) => {
        var _ := AddService(producer, declared);
      }
      case Deregister(producer) => {
        var _ := RemoveService(producer);
      }
      case Publish(producer, name, version, encodable) => {
        var _, _ := PublishNotification(producer, name, version, encodable);
      }
      case ListSubscriptions(c) => {
        var _ := GetSubscriptions(c);
      }
    }

    /** Any run: the in-place, array-sharing lists never drift from the set of subscriptions the requests describe. */
    method Serve(requests: seq<Request>)
      requires Valid()
      modifies this, owner.Keys
      ensures Valid() && fresh(owner.Keys - old(owner.Keys))
      ensures forall c, t :: ((c, t) in subs) ==
                             if ready then After((c, t) in old(subs), requests, c, t) else (c, t) in old(subs)
      ensures forall k :: DescriptorOf(k) ==
                          if ready then DescribedBy(old(DescriptorOf(k)), requests, k) else old(DescriptorOf(k))
      ensures forall p ::
                ServiceOf(p) == if ready then RegisteredAs(old(ServiceOf(p)), requests, p) else old(ServiceOf(p))
    {
      for i := 0 to |requests|
        invariant Valid() && fresh(owner.Keys - old(owner.Keys))
        invariant forall c, t :: ((c, t) in subs) ==
                                 if ready then After((c, t) in old(subs), requests[..i], c, t) else (c, t) in old(subs)
        invariant forall k :: DescriptorOf(k) ==
                              if ready then DescribedBy(old(DescriptorOf(k)), requests[..i], k) else old(DescriptorOf(k))
        invariant forall p ::
                    ServiceOf(p) == if ready then RegisteredAs(old(ServiceOf(p)), requests[..i], p) else old(ServiceOf(p))
      {
        Handle(requests[i]);
        assert requests[..i + 1][..i] == requests[..i];
      }
      assert requests[..|requests|] == requests;
    }
  }

  /** After any run, a producer's notification is accepted iff the last request that concerns the producer is a
      registration. It then goes once to each consumer whose last word on it, or on its namespace, was a subscription, and
      to nobody else. */
  method DeliveryAfterAnyRun(requests: seq<Request>, producer: string, name: string, version: string)
    returns (status: Status, sent: seq<string>)
    ensures match ParseUrn(producer)
            case None => status == Unauthorized && sent == []
            case Some(u) =>
              var k := Key(u.namespace, name, version);
              if RegisteredAs(None, requests, producer) == None then status == InternalError && sent == []
              else
                && status == Accepted && NoDuplicates(sent)
                && forall c :: c in sent <==>
                               || After(false, requests, c, Topic(k, None))
                               || After(false, requests, c, Topic(k, Some(u.id)))
  {
    var broker := new Broker(true);
    broker.Serve(requests);
    assert broker.ServiceOf(producer) == RegisteredAs(None, requests, producer);
    status, sent := broker.PublishNotification(producer, name, version, true);
  }

  /** No request subscribes to a service with the empty ID; the routes of the service admit none. */
  predicate NoEmptyService(requests: seq<Request>) {
    forall i :: 0 <= i < |requests| && requests[i].Subscribe? ==> requests[i].service != Some("")
  }

  lemma {:induction false} NobodyAtEmptyService(requests: seq<Request>, c: string, k: Key)
    requires NoEmptyService(requests)
    ensures !After(false, requests, c, Topic(k, Some("")))
    decreases |requests|
  {
    if requests == [] {
    } else {
      NobodyAtEmptyService(requests[..|requests| - 1], c, k);
    }
  }

  /** The topic a URN stands for in a listing. */
  function TopicAt(u: URN, k: Key): Topic {
    Topic(k, if u.id == "" then None else Some(u.id))
  }

  /** How often a run of requests makes a listing show a notification. */
  function Shown(requests: seq<Request>, c: string, u: URN, d: Descriptor): nat {
    var k := Key(u.namespace, d.name, d.version);
    if DescribedBy(None, requests, k) != Some(d) then 0 else
      Once(u.id == "" && After(false, requests, c, Topic(k, None))) + Once(After(false, requests, c, Topic(k, Some(u.id))))
  }

  /** What is shown, if nobody subscribes to a service with the empty ID: exactly what is subscribed to, once. */
  lemma ShownOnce(requests: seq<Request>, c: string, u: URN, d: Descriptor)
    requires NoEmptyService(requests)
    ensures var k := Key(u.namespace, d.name, d.version);
      Shown(requests, c, u, d) ==
      Once(DescribedBy(None, requests, k) == Some(d) && After(false, requests, c, TopicAt(u, k)))
  {
    NobodyAtEmptyService(requests, c, Key(u.namespace, d.name, d.version));
  }

  /** After any run a consumer's listing has pairwise distinct URNs; it shows every subscription whose last word was to
      subscribe and nothing else, each once unless someone subscribed to a service with the empty ID, and a notification
      twice under a URN iff both its namespace and its service with the empty ID are subscribed to. */
  method ListingAfterAnyRun(requests: seq<Request>, c: string) returns (list: seq<Entry>)
    ensures DistinctUrns(list)
    ensures forall u, d :: Count(list, u, d) == Shown(requests, c, u, d)
    ensures NoEmptyService(requests) ==> forall u, d ::
              Count(list, u, d) ==
              Once(DescribedBy(None, requests, Key(u.namespace, d.name, d.version)) == Some(d) &&
                   After(false, requests, c, TopicAt(u, Key(u.namespace, d.name, d.version))))
    ensures forall u, d ::
              Count(list, u, d) == 2 <==>
              var k := Key(u.namespace, d.name, d.version);
              && u.id == "" && DescribedBy(None, requests, k) == Some(d)
              && After(false, requests, c, Topic(k, None)) && After(false, requests, c, Topic(k, Some("")))
    ensures forall t :: After(false, requests, c, t) ==>
                          DescribedBy(None, requests, t.key).Some? &&
                          Count(list, UrnOf(t), DescribedBy(None, requests, t.key).value) >= 1
  {
    var broker := new Broker(true);
    broker.Serve(requests);
    var r := broker.GetSubscriptions(c);
    list := r.value;
    forall u, d
      ensures Count(list, u, d) == Shown(requests, c, u, d)
    {
      assert broker.DescriptorOf(Key(u.namespace, d.name, d.version)) ==
             DescribedBy(None, requests, Key(u.namespace, d.name, d.version));
    }
    if NoEmptyService(requests) {
      forall u, d {
        ShownOnce(requests, c, u, d);
      }
    }
    forall t | After(false, requests, c, t)
      ensures DescribedBy(None, requests, t.key).Some?
      ensures Count(list, UrnOf(t), DescribedBy(None, requests, t.key).value) >= 1
    {
      SubscribedIsDescribed(requests, c, t);
      assert broker.Described(t.key) && broker.DescriptorOf(t.key) == DescribedBy(None, requests, t.key);
    }
  }
}
