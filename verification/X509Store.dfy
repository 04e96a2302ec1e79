/** Certificate objects, the handles that own them, and stores with their trusted set and untrusted stash.
    Certificates are reference-counted objects of libcrypto; `count` holds the counter of every object that has
    not been destroyed. */
module X509Store {
  import opened Wrappers

  type Cert = nat

  /** What the calls into libcrypto's stack and ex-data allocators did. */
  datatype StackCalls = StackCalls(newOk: bool, setOk: bool, pushOk: bool)

  /** What chain building reported. */
  datatype Verdict = InitFailed | Rejected(fault: ChainFault) | Verified(chain: seq<Cert>)

  /** The X509_V_ERR codes that verify_chain tells apart. */
  datatype ChainFault =
    | CertHasExpired
    | CertNotYetValid
    | UnableToGetIssuerCert
    | UnableToGetIssuerCertLocally
    | CertRevoked
    | HostnameDiffers
    | Other(code: int)

  datatype X509Error = Internal | Expired | NotYetValid | UnknownIssuer | Revoked | HostnameMismatch | Untrusted

  /** What has become of the handle of a store: in the hands of the component's user, given up to a context without
      being dropped, or dropped. */
  datatype Handle = Held | Stranded | Dropped

  datatype Store = Store(handle: Handle, contexts: nat, stash: Option<seq<Cert>>, trusted: seq<Cert>) {

    /** The handle and every context own one reference each. */
    predicate Live() {
      !handle.Dropped? || contexts > 0
    }

    /** The references the store holds to `c`. */
    function Owned(c: Cert): nat {
      (if stash.Some? then multiset(stash.value)[c] else 0) + multiset(trusted)[c]
    }
  }

  function OwnedByStores(stores: seq<Store>, c: Cert): nat {
    if stores == [] then 0 else OwnedByStores(stores[..|stores| - 1], c) + stores[|stores| - 1].Owned(c)
  }

  lemma {:induction false} OwnedUpdate(stores: seq<Store>, i: nat, s: Store, c: Cert)
    requires i < |stores|
    ensures OwnedByStores(stores[i := s], c) + stores[i].Owned(c) == OwnedByStores(stores, c) + s.Owned(c)
  {
    var n := |stores| - 1;
    if i == n {
      assert stores[i := s][..n] == stores[..n];
    } else {
      assert stores[i := s][..n] == stores[..n][i := s];
      OwnedUpdate(stores[..n], i, s, c);
    }
  }

  lemma {:induction false} OwnedMember(stores: seq<Store>, i: nat, c: Cert)
    requires i < |stores|
    ensures stores[i].Owned(c) <= OwnedByStores(stores, c)
  {
    var n := |stores| - 1;
    if i < n {
      OwnedMember(stores[..n], i, c);
    }
  }

  /** The store after store_get_untrusted: the stack is created on first use, and kept if ex-data accepts it. */
  function WithStash(s: Store, calls: StackCalls): Store {
    if s.stash.None? && calls.newOk && calls.setOk then s.(stash := Some([])) else s
  }

  /** store_add_untrusted reports an error. */
  predicate Refuses(s: Store, calls: StackCalls) {
    s.stash.None? && !calls.newOk
  }

  /** store_add_untrusted leaves the certificate in a stash that the store remembers. */
  predicate Keeps(s: Store, calls: StackCalls) {
    WithStash(s, calls).stash.Some? && calls.pushOk
  }

  function Stashed(s: Store, c: Cert, calls: StackCalls): Store {
    var t := WithStash(s, calls);
    if Keeps(s, calls) then t.(stash := Some(t.stash.value + [c])) else t
  }

  /** The store once a reference to it is released: the trusted set goes with the last one. */
  function Released(s: Store): Store {
    if s.Live() then s else s.(trusted := [])
  }

  /** The store once a context has it: the stash goes with a dropped handle, and stays with a stranded one. */
  function Attached(s: Store, dropped: bool): Store {
    var t := s.(contexts := s.contexts + 1);
    if dropped then t.(handle := Dropped, stash := None) else t.(handle := Stranded)
  }

  /** The trusted set has a certificate of the content of `c`. */
  predicate Present(content: map<Cert, int>, trusted: seq<Cert>, c: Cert) {
    exists d | d in trusted :: c in content && d in content && content[c] == content[d]
  }

  /** The certificates chain building may draw on. */
  predicate Source(s: Store, leaf: Cert, extra: seq<Cert>, c: Cert) {
    c == leaf || c in extra || c in s.trusted || (s.stash.Some? && c in s.stash.value)
  }

  function ErrorOf(fault: ChainFault): (e: X509Error)
    ensures e == Expired <==> fault == CertHasExpired
    ensures e == NotYetValid <==> fault == CertNotYetValid
    ensures e == UnknownIssuer <==> fault == UnableToGetIssuerCert || fault == UnableToGetIssuerCertLocally
    ensures e == Revoked <==> fault == CertRevoked
    ensures e == HostnameMismatch <==> fault == HostnameDiffers
    ensures e == Untrusted <==> fault.Other?
    ensures e != Internal
  {
    match fault
    case CertHasExpired => Expired
    case CertNotYetValid => NotYetValid
    case UnableToGetIssuerCert => UnknownIssuer
    case UnableToGetIssuerCertLocally => UnknownIssuer
    case CertRevoked => Revoked
    case HostnameDiffers => HostnameMismatch
    case Other(_) => Untrusted
  }

  class World {
    var next: Cert
    var count: map<Cert, nat>
    var content: map<Cert, int>
    var handles: multiset<Cert>
    var stores: seq<Store>
    /** References that were taken and then lost by a failed stack or ex-data call. */
    ghost var lost: multiset<Cert>

    /** The references to `c` held by live handles, stashes and trusted sets. */
    ghost function Owners(c: Cert): nat
      reads this
    {
      handles[c] + OwnedByStores(stores, c)
    }

    /** Every counter equals the owners of its object plus the `held` references of a call in progress, and an
        object exists exactly while that number is not zero. */
    ghost predicate Balanced(held: multiset<Cert>)
      reads this
    {
      forall c :: Counter(c) == Owners(c) + lost[c] + held[c]
    }

    /** The counter of an object, and zero once it is destroyed. */
    ghost function Counter(c: Cert): nat
      reads this
    {
      if c in count then count[c] else 0
    }

    ghost predicate Valid()
      reads this
    {
      && count.Keys <= content.Keys
      && (forall c | c in content :: c < next)
      && (forall c | c in count :: count[c] > 0)
      && (forall i | 0 <= i < |stores| && !stores[i].Live() :: stores[i].trusted == [])
      && (forall i | 0 <= i < |stores| && stores[i].handle.Dropped? :: stores[i].stash == None)
    }

    constructor ()
      ensures Valid() && Balanced(multiset{})
      ensures count == map[] && Current() == START
    {
      next, count, content, handles, stores, lost := 0, map[], map[], multiset{}, [], multiset{};
    }

    // ---- libcrypto ----

    method UpRef(c: Cert, ghost held: multiset<Cert>)
      requires Valid() && Balanced(held) && c in count
      modifies this`count
      ensures Valid() && Balanced(held + multiset{c})
      ensures count.Keys == old(count.Keys)
    {
      hide OwnedByStores;
      count := count[c := count[c] + 1];
    }

    method Free(c: Cert, ghost held: multiset<Cert>)
      requires Valid() && Balanced(held + multiset{c})
      modifies this`count
      ensures Valid() && Balanced(held)
    {
      hide OwnedByStores;
      assert Counter(c) > 0;
      if count[c] == 1 {
        count := count - {c};
      } else {
        count := count[c := count[c] - 1];
      }
    }

    method UpRefAll(cs: seq<Cert>, ghost held: multiset<Cert>)
      requires Valid() && Balanced(held) && forall c | c in cs :: c in count
      modifies this`count
      ensures Valid() && Balanced(held + multiset(cs))
    {
      hide OwnedByStores, Balanced;
      assert held + multiset(cs[..0]) == held;
      for i := 0 to |cs|
        invariant Valid() && Balanced(held + multiset(cs[..i]))
        invariant forall c | c in cs :: c in count
      {
        assert cs[..i + 1] == cs[..i] + [cs[i]];
        assert held + multiset(cs[..i]) + multiset{cs[i]} == held + multiset(cs[..i + 1]);
        UpRef(cs[i], held + multiset(cs[..i]));
      }
      assert cs[..|cs|] == cs;
    }

    /** sk_X509_pop_free. */
    method FreeAll(cs: seq<Cert>, ghost held: multiset<Cert>)
      requires Valid() && Balanced(held + multiset(cs))
      modifies this`count
      ensures Valid() && Balanced(held)
    {
      hide OwnedByStores, Balanced;
      assert cs[0..] == cs;
      for i := 0 to |cs|
        invariant Valid() && Balanced(held + multiset(cs[i..]))
      {
        assert cs[i..] == [cs[i]] + cs[i + 1..];
        assert held + multiset(cs[i..]) == held + multiset(cs[i + 1..]) + multiset{cs[i]};
        Free(cs[i], held + multiset(cs[i + 1..]));
      }
      assert held + multiset(cs[|cs|..]) == held;
    }

    // ---- certificates ----

    /** certificate.parse of text that libcrypto accepts as a certificate with content `x`. */
    method Parse(x: int) returns (c: Cert)
      requires Valid() && Balanced(multiset{})
      modifies this
      ensures Valid() && Balanced(multiset{})
      ensures c == old(next) && next == c + 1
      ensures c !in old(content) && content == old(content)[c := x]
      ensures handles == old(handles) + multiset{c} && stores == old(stores) && lost == old(lost)
    {
      hide OwnedByStores;
      c := next;
      assert Counter(c) == 0;
      assert Owners(c) + lost[c] == 0;
      next := next + 1;
      content := content[c := x];
      count := count[c := 1];
      handles := handles + multiset{c};
    }

    method Clone(c: Cert)
      requires Valid() && Balanced(multiset{}) && c in handles
      modifies this`count, this`handles
      ensures Valid() && Balanced(multiset{})
      ensures handles == old(handles) + multiset{c}
    {
      hide OwnedByStores;
      NewHandle(c, multiset{});
    }

    /** certificate destructor. */
    method Drop(c: Cert)
      requires Valid() && Balanced(multiset{}) && c in handles
      modifies this`count, this`handles
      ensures Valid() && Balanced(multiset{})
      ensures handles == old(handles) - multiset{c}
    {
      hide OwnedByStores;
      handles := handles - multiset{c};
      Free(c, multiset{});
    }

    // ---- stores ----

    method NewStore()
      requires Valid() && Balanced(multiset{})
      modifies this`stores
      ensures Valid() && Balanced(multiset{})
      ensures stores == old(stores) + [Store(Held, 0, None, [])]
    {
      stores := stores + [Store(Held, 0, None, [])];
      assert stores[..|stores| - 1] == old(stores);
    }

    /** A store loses what `t` lacks and gains what `t` adds, against the references held by the call. */
    method SetStore(i: nat, t: Store, ghost before: multiset<Cert>, ghost after: multiset<Cert>)
      requires Valid() && Balanced(before) && i < |stores|
      requires (!t.Live() ==> t.trusted == []) && (t.handle.Dropped? ==> t.stash == None)
      requires forall c :: stores[i].Owned(c) + before[c] == t.Owned(c) + after[c]
      modifies this`stores
      ensures Valid() && Balanced(after)
      ensures stores == old(stores)[i := t]
    {
      forall c ensures OwnedByStores(stores[i := t], c) + stores[i].Owned(c) == OwnedByStores(stores, c) + t.Owned(c) {
        OwnedUpdate(stores, i, t, c);
      }
      stores := stores[i := t];
    }

    /** X509_STORE_add_cert ignores a certificate whose content is already present. */
    method AddTrusted(i: nat, c: Cert, ok: bool) returns (r: Result<(), X509Error>)
      requires Valid() && Balanced(multiset{}) && i < |stores| && stores[i].handle.Held? && c in handles
      modifies this`count, this`stores
      ensures Valid() && Balanced(multiset{})
      ensures r == if ok then Ok(()) else Err(Internal)
      ensures
        var s := old(stores)[i];
        var present := exists d | d in s.trusted :: d in content && c in content && content[d] == content[c];
        stores == if ok && !present then old(stores)[i := s.(trusted := s.trusted + [c])] else old(stores)
    {
      hide OwnedByStores;
      if !ok {
        return Err(Internal);
      }
      var s := stores[i];
      var present := false;
      for k := 0 to |s.trusted|
        invariant present <==> Present(content, s.trusted[..k], c)
      {
        if c in content && s.trusted[k] in content && content[c] == content[s.trusted[k]] {
          present := true;
        }
        assert s.trusted[..k + 1] == s.trusted[..k] + [s.trusted[k]];
      }
      assert s.trusted[..|s.trusted|] == s.trusted;
      if !present {
        assert Counter(c) > 0;
        UpRef(c, multiset{});
        SetStore(i, s.(trusted := s.trusted + [c]), multiset{c}, multiset{});
      }
      r := Ok(());
    }

    /** store_add_untrusted. The reference it takes ends up in the stash exactly when the stash is remembered and the
        push succeeds; otherwise no one owns it. */
    method AddUntrusted(i: nat, c: Cert, calls: StackCalls) returns (r: Result<(), X509Error>)
      requires Valid() && Balanced(multiset{}) && i < |stores| && stores[i].handle.Held? && c in handles
      modifies this`count, this`stores, this`lost
      ensures Valid() && Balanced(multiset{})
      ensures r == if old(stores)[i].stash.None? && !calls.newOk then Err(Internal) else Ok(())
      ensures
        var s := old(stores)[i];
        var remembered := s.stash.Some? || (calls.newOk && calls.setOk);
        var sofar := if s.stash.Some? then s.stash.value else [];
        && stores == old(stores)[i := s.(stash := if !remembered then None
                                                  else if calls.pushOk then Some(sofar + [c])
                                                  else Some(sofar))]
        && lost == old(lost) + if r.Err? || (remembered && calls.pushOk) then multiset{} else multiset{c}
      ensures stores == old(stores)[i := Stashed(old(stores)[i], c, calls)]
      ensures lost == old(lost) + if Refuses(old(stores)[i], calls) || Keeps(old(stores)[i], calls) then multiset{}
                                  else multiset{c}
    {
      hide OwnedByStores, Balanced;
      var s := stores[i];
      SetStore(i, WithStash(s, calls), multiset{}, multiset{});
      if Refuses(s, calls) {
        return Err(Internal);
      }
      Alive(c, multiset{});
      UpRef(c, multiset{});
      if Keeps(s, calls) {
        Push(i, c);
      } else {
        Lose(c);
      }
      r := Ok(());
    }

    lemma Alive(c: Cert, held: multiset<Cert>)
      requires Valid() && Balanced(held) && (c in handles || c in held)
      ensures c in count
    {
      hide OwnedByStores;
      assert Counter(c) > 0;
    }

    /** The call returns without passing its reference on. */
    ghost method Lose(c: Cert)
      requires Valid() && Balanced(multiset{} + multiset{c})
      modifies this`lost
      ensures Valid() && Balanced(multiset{})
      ensures lost == old(lost) + multiset{c}
    {
      hide OwnedByStores;
      lost := lost + multiset{c};
    }

    /** sk_X509_push onto the stash hands it the reference held by the call. */
    method Push(i: nat, c: Cert)
      requires Valid() && Balanced(multiset{} + multiset{c})
      requires i < |stores| && stores[i].handle.Held? && stores[i].stash.Some?
      modifies this`stores
      ensures Valid() && Balanced(multiset{})
      ensures stores == old(stores)[i := old(stores)[i].(stash := Some(old(stores)[i].stash.value + [c]))]
    {
      hide OwnedByStores, Balanced;
      var s := stores[i];
      var t := s.(stash := Some(s.stash.value + [c]));
      forall d ensures s.Owned(d) + (multiset{} + multiset{c})[d] == t.Owned(d) + multiset{}[d] {
        assert multiset(s.stash.value + [c])[d] == multiset(s.stash.value)[d] + multiset{c}[d];
      }
      SetStore(i, t, multiset{} + multiset{c}, multiset{});
    }

    /** A TLS constructor is given the store's handle, and its SSL_CTX takes a reference. The source never drops the
        handle; `dropped` says whether the layer that called it does. */
    method AttachContext(i: nat, dropped: bool)
      requires Valid() && Balanced(multiset{}) && i < |stores| && stores[i].handle.Held?
      modifies this`count, this`stores
      ensures Valid() && Balanced(multiset{})
      ensures
        var s := old(stores)[i];
        stores == old(stores)[i := if dropped then Store(Dropped, s.contexts + 1, None, s.trusted)
                                   else Store(Stranded, s.contexts + 1, s.stash, s.trusted)]
    {
      hide OwnedByStores;
      SetStore(i, stores[i].(contexts := stores[i].contexts + 1), multiset{}, multiset{});
      if dropped {
        DropStore(i);
      } else {
        SetStore(i, stores[i].(handle := Stranded), multiset{}, multiset{});
      }
    }

    /** An SSL_CTX releases its reference; the trusted set goes with the last one. */
    method ReleaseContext(i: nat)
      requires Valid() && Balanced(multiset{}) && i < |stores| && stores[i].contexts > 0
      modifies this`count, this`stores
      ensures Valid() && Balanced(multiset{})
      ensures
        var s := old(stores)[i];
        stores == old(stores)[i := Store(s.handle, s.contexts - 1, s.stash,
                                         if s.handle.Dropped? && s.contexts == 1 then [] else s.trusted)]
    {
      hide OwnedByStores;
      ReleaseTrusted(i, stores[i].(contexts := stores[i].contexts - 1));
    }

    /** X509_STORE_free, where `s` is the store with one reference fewer. */
    method ReleaseTrusted(i: nat, s: Store)
      requires Valid() && Balanced(multiset{}) && i < |stores|
      requires s.trusted == stores[i].trusted && s.stash == stores[i].stash && (s.handle.Dropped? ==> s.stash == None)
      modifies this`count, this`stores
      ensures Valid() && Balanced(multiset{})
      ensures stores == old(stores)[i := Released(s)]
    {
      hide OwnedByStores;
      if s.Live() {
        SetStore(i, s, multiset{}, multiset{});
      } else {
        SetStore(i, s.(trusted := []), multiset{}, multiset(s.trusted));
        FreeAll(s.trusted, multiset{});
      }
    }

    /** store destructor: the stash is freed with the handle, the trusted set with the last reference. */
    method DropStore(i: nat)
      requires Valid() && Balanced(multiset{}) && i < |stores| && stores[i].handle.Held?
      modifies this`count, this`stores
      ensures Valid() && Balanced(multiset{})
      ensures
        var s := old(stores)[i];
        stores == old(stores)[i := Store(Dropped, s.contexts, None, if s.contexts == 0 then [] else s.trusted)]
    {
      hide OwnedByStores;
      var s := stores[i];
      if s.stash.Some? {
        SetStore(i, s.(stash := None), multiset{}, multiset(s.stash.value));
        FreeAll(s.stash.value, multiset{});
      }
      ReleaseTrusted(i, s.(handle := Dropped, stash := None));
    }

    // ---- chain verification ----

    /** verify_chain: the temporary stack of untrusted certificates takes no references; each certificate of the chain
        is counted once for get1_chain, once for its new handle, and released once with the chain. */
    method VerifyChain(i: nat, leaf: Cert, extra: seq<Cert>, calls: StackCalls, verdict: Verdict)
      returns (r: Result<seq<Cert>, X509Error>)
      requires Valid() && Balanced(multiset{}) && i < |stores| && stores[i].handle.Held?
      requires leaf in handles && forall c | c in extra :: c in handles
      requires verdict.Verified? ==> forall c | c in verdict.chain :: Source(stores[i], leaf, extra, c)
      modifies this`count, this`handles, this`stores
      ensures Valid() && Balanced(multiset{})
      ensures stores == old(stores)[i := WithStash(old(stores)[i], calls)]
      ensures match verdict
              case InitFailed => r == Err(Internal) && handles == old(handles)
              case Rejected(fault) => r == Err(ErrorOf(fault)) && handles == old(handles)
              case Verified(chain) => r == Ok(chain) && handles == old(handles) + multiset(chain)
      ensures forall c :: Counter(c) == old(Counter(c)) + if r.Ok? then multiset(r.value)[c] else 0
      ensures r == Err(Internal) <==> verdict == InitFailed
      ensures r == Err(Expired) <==> verdict == Rejected(CertHasExpired)
      ensures r == Err(NotYetValid) <==> verdict == Rejected(CertNotYetValid)
      ensures r == Err(UnknownIssuer) <==>
        verdict == Rejected(UnableToGetIssuerCert) || verdict == Rejected(UnableToGetIssuerCertLocally)
      ensures r == Err(Revoked) <==> verdict == Rejected(CertRevoked)
      ensures r == Err(HostnameMismatch) <==> verdict == Rejected(HostnameDiffers)
      ensures r == Err(Untrusted) <==> verdict.Rejected? && verdict.fault.Other?
      ensures
        var s := old(stores)[i];
        var stash := if s.stash.None? && calls.newOk && calls.setOk then Some([]) else s.stash;
        stores == old(stores)[i := s.(stash := stash)]
    {
      hide OwnedByStores, ErrorOf;
      var s := stores[i];
      SetStore(i, WithStash(s, calls), multiset{}, multiset{});
      match verdict {
        case InitFailed => r := Err(Internal);
        case Rejected(fault) => r := Err(ErrorOf(fault));
        case Verified(chain) =>
          forall c | c in chain
            ensures c in count
          {
            OwnedMember(stores, i, c);
            assert Counter(c) > 0;
          }
          ReturnChain(chain);
          r := Ok(chain);
      }
      OwnersAfter(i, WithStash(s, calls), old(stores));
    }

    /** Stashes and trusted sets own what they did when store `i` owns what it did. */
    lemma OwnersAfter(i: nat, t: Store, before: seq<Store>)
      requires i < |before| && stores == before[i := t] && forall c :: before[i].Owned(c) == t.Owned(c)
      ensures forall c :: Owners(c) == handles[c] + OwnedByStores(before, c)
    {
      forall c ensures OwnedByStores(stores, c) == OwnedByStores(before, c) {
        OwnedUpdate(before, i, t, c);
      }
    }

    /** get1_chain, one handle for each element, and the release of the chain. */
    method ReturnChain(chain: seq<Cert>)
      requires Valid() && Balanced(multiset{}) && forall c | c in chain :: c in count
      modifies this`count, this`handles
      ensures Valid() && Balanced(multiset{})
      ensures handles == old(handles) + multiset(chain)
    {
      hide OwnedByStores, Balanced;
      UpRefAll(chain, multiset{});
      MakeHandles(chain);
      FreeAll(chain, multiset{});
    }

    method MakeHandles(chain: seq<Cert>)
      requires Valid() && Balanced(multiset{} + multiset(chain))
      modifies this`count, this`handles
      ensures Valid() && Balanced(multiset{} + multiset(chain))
      ensures handles == old(handles) + multiset(chain)
    {
      hide OwnedByStores;
      ghost var held := multiset{} + multiset(chain);
      for k := 0 to |chain|
        invariant Valid() && Balanced(held)
        invariant handles == old(handles) + multiset(chain[..k])
      {
        assert chain[..k + 1] == chain[..k] + [chain[k]];
        NewHandle(chain[k], held);
      }
      assert chain[..|chain|] == chain;
    }

    /** X509_up_ref followed by a new handle. */
    method NewHandle(c: Cert, ghost held: multiset<Cert>)
      requires Valid() && Balanced(held) && (c in handles || c in held)
      modifies this`count, this`handles
      ensures Valid() && Balanced(held)
      ensures handles == old(handles) + multiset{c}
    {
      hide OwnedByStores;
      assert Counter(c) > 0;
      UpRef(c, held);
      handles := handles + multiset{c};
    }

    // ---- runs ----

    ghost function Current(): State
      reads this
    {
      State(next, content, handles, stores, lost)
    }

    method ApplyToHandles(op: Op)
      requires Valid() && Balanced(multiset{}) && Allowed(handles, stores, op)
      requires op.Parse? || op.Clone? || op.Drop? || op.VerifyChain?
      modifies this
      ensures Valid() && Balanced(multiset{})
      ensures Current() == old(Current()).Next(op)
    {
      hide OwnedByStores, Balanced, Source, WithStash;
      match op
      case Parse(x) => var _ := Parse(x);
      case Clone(c) => Clone(c);
      case Drop(c) => Drop(c);
      case VerifyChain(i, leaf, extra, calls, verdict) => var _ := VerifyChain(i, leaf, extra, calls, verdict);
    }

    method ApplyAddition(op: Op)
      requires Valid() && Balanced(multiset{}) && Allowed(handles, stores, op)
      requires op.AddTrusted? || op.AddUntrusted?
      modifies this
      ensures Valid() && Balanced(multiset{})
      ensures Current() == old(Current()).Next(op)
    {
      hide OwnedByStores, Balanced, Source;
      match op
      case AddTrusted(i, c, ok) => var _ := AddTrusted(i, c, ok);
      case AddUntrusted(i, c, calls) => var _ := AddUntrusted(i, c, calls);
    }

    method ApplyToStores(op: Op)
      requires Valid() && Balanced(multiset{}) && Allowed(handles, stores, op)
      requires op.NewStore? || op.AttachContext? || op.ReleaseContext? || op.DropStore?
      modifies this
      ensures Valid() && Balanced(multiset{})
      ensures Current() == old(Current()).Next(op)
    {
      hide OwnedByStores, Balanced, Source, Present, Stashed, Refuses, Keeps;
      match op
      case NewStore => NewStore();
      case AttachContext(i, dropped) => AttachContext(i, dropped);
      case ReleaseContext(i) => ReleaseContext(i);
      case DropStore(i) => DropStore(i);
    }

    method Apply(op: Op)
      requires Valid() && Balanced(multiset{}) && Allowed(handles, stores, op)
      modifies this
      ensures Valid() && Balanced(multiset{})
      ensures Current() == old(Current()).Next(op)
    {
      hide *;
      if op.Parse? || op.Clone? || op.Drop? || op.VerifyChain? {
        ApplyToHandles(op);
      } else if op.AddTrusted? || op.AddUntrusted? {
        ApplyAddition(op);
      } else {
        ApplyToStores(op);
      }
    }

    /** Every run reaches the handles and stores of the calls performed, with the counters equal to the owners plus
        the references lost: one for each untrusted addition whose stash was not remembered or whose push failed. */
    method Run(ops: seq<Op>) returns (losses: nat)
      requires Valid() && Balanced(multiset{})
      modifies this
      ensures Valid() && Balanced(multiset{})
      ensures Current() == After(old(Current()), ops)
      ensures losses == Losses(old(Current()), ops) && |lost| == |old(lost)| + losses
      ensures (forall op | op in ops :: op.AddUntrusted? ==> op.calls == StackCalls(true, true, true)) ==>
        losses == 0 && lost == old(lost)
    {
      hide OwnedByStores, Balanced, Allowed;
      ghost var start := Current();
      losses := 0;
      for k := 0 to |ops|
        invariant Valid() && Balanced(multiset{})
        invariant Current() == After(start, ops[..k]) && losses == Losses(start, ops[..k])
      {
        assert ops[..k + 1][..k] == ops[..k];
        if Allowed(handles, stores, ops[k]) {
          if ops[k].LosesReference(stores) {
            losses := losses + 1;
          }
          Apply(ops[k]);
        }
      }
      assert ops[..|ops|] == ops;
      LossesCounted(start, ops);
      if forall op | op in ops :: op.AddUntrusted? ==> op.calls == ALL_OK {
        NoLosses(start, ops);
      }
    }

    /** An object exists exactly while someone owns it; with no failed stack calls, owners are handles, stashes and
        trusted sets, and the counter is their number. */
    lemma ExistsWhileOwned(c: Cert)
      requires Valid() && Balanced(multiset{}) && lost == multiset{}
      ensures c in count <==> Owners(c) > 0
      ensures c in count ==> count[c] == Owners(c)
    {
      assert Counter(c) == Owners(c);
    }

    /** Once every handle and every store is gone, no object is left but those whose reference was lost. */
    lemma NothingLeft()
      requires Valid() && Balanced(multiset{}) && handles == multiset{}
      requires forall i | 0 <= i < |stores| :: !stores[i].Live()
      ensures forall c :: c in count <==> c in lost
    {
      forall c ensures c in count <==> c in lost {
        OwnsNothing(stores, c);
        assert Counter(c) == lost[c];
      }
    }
  }

  lemma {:induction false} OwnsNothing(stores: seq<Store>, c: Cert)
    requires forall i | 0 <= i < |stores| :: stores[i].trusted == [] && stores[i].stash == None
    ensures OwnedByStores(stores, c) == 0
  {
    if stores != [] {
      OwnsNothing(stores[..|stores| - 1], c);
    }
  }

  datatype Op =
    | Parse(x: int)
    | Clone(c: Cert)
    | Drop(c: Cert)
    | NewStore
    | AddTrusted(i: nat, c: Cert, ok: bool)
    | AddUntrusted(i: nat, c: Cert, calls: StackCalls)
    | AttachContext(i: nat, dropped: bool)
    | ReleaseContext(i: nat)
    | DropStore(i: nat)
    | VerifyChain(i: nat, leaf: Cert, extra: seq<Cert>, calls: StackCalls, verdict: Verdict)
  {
    /** A stash that cannot be remembered, or a push that fails, drops the reference just taken. */
    predicate LosesReference(stores: seq<Store>) {
      AddUntrusted? && i < |stores| && !Refuses(stores[i], calls) && !Keeps(stores[i], calls)
    }
  }

  const ALL_OK := StackCalls(true, true, true)

  /** What the types of the interface and libcrypto's contract guarantee of a call. */
  predicate Allowed(handles: multiset<Cert>, stores: seq<Store>, op: Op) {
    match op
    case Parse(_) => true
    case Clone(c) => c in handles
    case Drop(c) => c in handles
    case NewStore => true
    case AddTrusted(i, c, _) => i < |stores| && stores[i].handle.Held? && c in handles
    case AddUntrusted(i, c, _) => i < |stores| && stores[i].handle.Held? && c in handles
    case AttachContext(i, _) => i < |stores| && stores[i].handle.Held?
    case ReleaseContext(i) => i < |stores| && stores[i].contexts > 0
    case DropStore(i) => i < |stores| && stores[i].handle.Held?
    case VerifyChain(i, leaf, extra, _, verdict) =>
      && i < |stores| && stores[i].handle.Held?
      && leaf in handles && (forall c | c in extra :: c in handles)
      && (verdict.Verified? ==> forall c | c in verdict.chain :: Source(stores[i], leaf, extra, c))
  }

  /** A call is ruled out only when it names a handle or a store that its caller does not have, or a chain that could
      not have been built. */
  lemma AllowedCalls(handles: multiset<Cert>, stores: seq<Store>, i: nat, c: Cert, calls: StackCalls, ok: bool)
    ensures Allowed(handles, stores, NewStore) && forall x :: Allowed(handles, stores, Parse(x))
    ensures Allowed(handles, stores, Clone(c)) == Allowed(handles, stores, Drop(c)) == (c in handles)
    ensures Allowed(handles, stores, AddTrusted(i, c, ok)) == Allowed(handles, stores, AddUntrusted(i, c, calls))
         == (i < |stores| && stores[i].handle == Held && c in handles)
    ensures Allowed(handles, stores, DropStore(i)) == Allowed(handles, stores, AttachContext(i, ok))
         == (i < |stores| && stores[i].handle == Held)
    ensures Allowed(handles, stores, ReleaseContext(i)) == (i < |stores| && stores[i].contexts != 0)
    ensures forall extra, verdict ::
      Allowed(handles, stores, VerifyChain(i, c, extra, calls, verdict)) ==
      (&& i < |stores| && stores[i].handle == Held && c in handles && (forall d :: d in extra ==> d in handles)
       && (verdict.Verified? ==>
             forall d :: d in verdict.chain ==>
               d == c || d in extra || d in stores[i].trusted || (stores[i].stash.Some? && d in stores[i].stash.value)))
  {
  }

  /** Everything but the counters, which the balance determines. */
  datatype State = State(
    next: Cert, content: map<Cert, int>, handles: multiset<Cert>, stores: seq<Store>, lost: multiset<Cert>)
  {
    function Next(op: Op): State
      requires Allowed(handles, stores, op)
    {
      match op
      case Parse(x) => this.(next := next + 1, content := content[next := x], handles := handles + multiset{next})
      case Clone(c) => this.(handles := handles + multiset{c})
      case Drop(c) => this.(handles := handles - multiset{c})
      case NewStore => this.(stores := stores + [Store(Held, 0, None, [])])
      case AddTrusted(i, c, ok) =>
        if ok && !Present(content, stores[i].trusted, c)
        then this.(stores := stores[i := stores[i].(trusted := stores[i].trusted + [c])])
        else this
      case AddUntrusted(i, c, calls) =>
        this.(stores := stores[i := Stashed(stores[i], c, calls)],
              lost := lost + if op.LosesReference(stores) then multiset{c} else multiset{})
      case AttachContext(i, dropped) => this.(stores := stores[i := Attached(stores[i], dropped)])
      case ReleaseContext(i) =>
        this.(stores := stores[i := Released(stores[i].(contexts := stores[i].contexts - 1))])
      case DropStore(i) => this.(stores := stores[i := Released(stores[i].(handle := Dropped, stash := None))])
      case VerifyChain(i, _, _, calls, verdict) =>
        this.(stores := stores[i := WithStash(stores[i], calls)],
              handles := handles + if verdict.Verified? then multiset(verdict.chain) else multiset{})
    }
  }

  const START := State(0, map[], multiset{}, [], multiset{})

  /** The state after the calls of `ops` that are allowed at their turn. */
  function After(s: State, ops: seq<Op>): State {
    if ops == [] then s
    else
      var t, op := After(s, ops[..|ops| - 1]), ops[|ops| - 1];
      if Allowed(t.handles, t.stores, op) then t.Next(op) else t
  }

  /** How many of those calls lose a reference. */
  function Losses(s: State, ops: seq<Op>): nat {
    if ops == [] then 0
    else
      var t, op := After(s, ops[..|ops| - 1]), ops[|ops| - 1];
      Losses(s, ops[..|ops| - 1]) + if Allowed(t.handles, t.stores, op) && op.LosesReference(t.stores) then 1 else 0
  }

  lemma NextLost(s: State, op: Op)
    requires Allowed(s.handles, s.stores, op)
    ensures s.Next(op).lost == s.lost + if op.LosesReference(s.stores) then multiset{op.c} else multiset{}
  {
    hide Source, Present, Stashed, Attached, Refuses, Keeps;
  }

  lemma {:induction false} LossesCounted(s: State, ops: seq<Op>)
    ensures |After(s, ops).lost| == |s.lost| + Losses(s, ops)
  {
    hide Allowed, State.Next, Op.LosesReference;
    if ops != [] {
      var t, op := After(s, ops[..|ops| - 1]), ops[|ops| - 1];
      LossesCounted(s, ops[..|ops| - 1]);
      if Allowed(t.handles, t.stores, op) {
        NextLost(t, op);
      }
    }
  }

  lemma {:induction false} NoLosses(s: State, ops: seq<Op>)
    requires forall op | op in ops :: op.AddUntrusted? ==> op.calls == ALL_OK
    ensures Losses(s, ops) == 0 && After(s, ops).lost == s.lost
  {
    hide Allowed, State.Next;
    if ops != [] {
      var t, op := After(s, ops[..|ops| - 1]), ops[|ops| - 1];
      NoLosses(s, ops[..|ops| - 1]);
      assert op in ops;
      if Allowed(t.handles, t.stores, op) {
        NextLost(t, op);
      }
    }
  }

  /** Nothing is added to a store without a usable handle. Its handle and stash are what they were, its contexts only
      go away, and the trusted set is released with the last owner. */
  predicate Outlives(before: Store, after: Store) {
    && after.handle == before.handle && after.stash == before.stash && after.contexts <= before.contexts
    && after.trusted == if after.Live() then before.trusted else []
  }

  lemma NextOutlives(before: Store, s: State, op: Op, i: nat)
    requires i < |s.stores| && !before.handle.Held? && Outlives(before, s.stores[i])
    requires Allowed(s.handles, s.stores, op)
    ensures i < |s.Next(op).stores| && Outlives(before, s.Next(op).stores[i])
  {
    hide Source, Present, Stashed, Attached;
    assert op.VerifyChain? ==> s.stores[op.i].handle.Held?;
  }

  /** After any calls the trusted set of a store that went to a context is released with the last context if its
      handle was dropped, and never if it was stranded; a stranded stash is never released. */
  lemma {:induction false} AttachedStore(s: State, ops: seq<Op>, i: nat)
    requires i < |s.stores| && !s.stores[i].handle.Held? && (!s.stores[i].Live() ==> s.stores[i].trusted == [])
    ensures i < |After(s, ops).stores| && Outlives(s.stores[i], After(s, ops).stores[i])
    ensures var before, after := s.stores[i], After(s, ops).stores[i];
            && after.handle == before.handle && after.stash == before.stash && after.contexts <= before.contexts
            && after.trusted == if before.handle == Stranded || after.contexts > 0 then before.trusted else []
  {
    hide Allowed, State.Next, Outlives;
    if ops == [] {
      OutlivesItself(s.stores[i]);
    } else {
      AttachedStore(s, ops[..|ops| - 1], i);
      var t, op := After(s, ops[..|ops| - 1]), ops[|ops| - 1];
      if Allowed(t.handles, t.stores, op) {
        NextOutlives(s.stores[i], t, op, i);
      }
    }
    OutlivesMeans(s.stores[i], After(s, ops).stores[i]);
  }

  lemma OutlivesMeans(before: Store, after: Store)
    requires Outlives(before, after) && !before.handle.Held?
    ensures after.handle == before.handle && after.stash == before.stash && after.contexts <= before.contexts
    ensures after.trusted == if before.handle == Stranded || after.contexts > 0 then before.trusted else []
  {
  }

  lemma OutlivesItself(s: Store)
    requires !s.Live() ==> s.trusted == []
    ensures Outlives(s, s)
  {
  }

  lemma AfterOne(s: State, ops: seq<Op>, op: Op)
    ensures var t := After(s, ops);
            After(s, ops + [op]) == if Allowed(t.handles, t.stores, op) then t.Next(op) else t
  {
    assert (ops + [op])[..|ops|] == ops;
  }

  /** A certificate is parsed, and its push onto the stash of a new store fails. */
  const ADD_FAILS := [Parse(7), NewStore, AddUntrusted(0, 0, StackCalls(true, true, false))]

  /** Then both handles are dropped. */
  const PUSH_FAILS := ADD_FAILS + [Drop(0)] + [DropStore(0)]

  lemma AddFails()
    ensures After(START, ADD_FAILS)
         == State(1, map[0 := 7], multiset{0}, [Store(Held, 0, Some([]), [])], multiset{0})
  {
    hide After;
    NothingDone(START);
    AfterOne(START, [], ADD_FAILS[0]);
    assert ADD_FAILS[..1] == [] + [ADD_FAILS[0]];
    assert After(START, ADD_FAILS[..1]) == State(1, map[0 := 7], multiset{0}, [], multiset{});
    AfterOne(START, ADD_FAILS[..1], ADD_FAILS[1]);
    assert ADD_FAILS[..2] == ADD_FAILS[..1] + [ADD_FAILS[1]];
    AfterOne(START, ADD_FAILS[..2], ADD_FAILS[2]);
    assert ADD_FAILS == ADD_FAILS[..2] + [ADD_FAILS[2]];
  }

  lemma PushFails()
    ensures After(START, PUSH_FAILS) == State(1, map[0 := 7], multiset{}, [Store(Dropped, 0, None, [])], multiset{0})
  {
    hide After;
    AddFails();
    AfterOne(START, ADD_FAILS, Drop(0));
    AfterOne(START, ADD_FAILS + [Drop(0)], DropStore(0));
  }

  lemma NothingDone(s: State)
    ensures After(s, []) == s
  {
  }

  /** The certificate of that run outlives every handle and store. */
  method LostCertificate() returns (w: World, losses: nat)
    ensures 0 in w.count && losses == 1
    ensures w.handles == multiset{} && forall i | 0 <= i < |w.stores| :: !w.stores[i].Live()
  {
    hide OwnedByStores, World.Balanced, After, Losses, PUSH_FAILS;
    w := new World();
    losses := w.Run(PUSH_FAILS);
    PushFails();
    w.NothingLeft();
  }

  /** A trusted certificate is dropped after its store went to a context without the handle being dropped, and then
      the context goes. */
  const STRANDED_STORE :=
    [Parse(7), NewStore, AddTrusted(0, 0, true)] + [AttachContext(0, false)] + [Drop(0)] + [ReleaseContext(0)]

  lemma StrandedStore()
    ensures After(START, STRANDED_STORE)
         == State(1, map[0 := 7], multiset{}, [Store(Stranded, 0, None, [0])], multiset{})
  {
    hide After;
    var ops := [Parse(7), NewStore, AddTrusted(0, 0, true)];
    TrustedAdded();
    AfterOne(START, ops, AttachContext(0, false));
    assert After(START, ops + [AttachContext(0, false)])
        == State(1, map[0 := 7], multiset{0}, [Store(Stranded, 1, None, [0])], multiset{});
    AfterOne(START, ops + [AttachContext(0, false)], Drop(0));
    AfterOne(START, ops + [AttachContext(0, false)] + [Drop(0)], ReleaseContext(0));
  }

  lemma TrustedAdded()
    ensures After(START, [Parse(7), NewStore, AddTrusted(0, 0, true)])
         == State(1, map[0 := 7], multiset{0}, [Store(Held, 0, None, [0])], multiset{})
  {
    hide After;
    var ops := [Parse(7), NewStore, AddTrusted(0, 0, true)];
    NothingDone(START);
    AfterOne(START, [], ops[0]);
    assert ops[..1] == [] + [ops[0]];
    assert After(START, ops[..1]) == State(1, map[0 := 7], multiset{0}, [], multiset{});
    AfterOne(START, ops[..1], ops[1]);
    assert ops[..2] == ops[..1] + [ops[1]];
    assert After(START, ops[..2]) == State(1, map[0 := 7], multiset{0}, [Store(Held, 0, None, [])], multiset{});
    assert !Present(map[0 := 7], [], 0);
    AfterOne(START, ops[..2], ops[2]);
    assert [] + [0] == [0];
    assert ops == ops[..2] + [ops[2]];
  }

  /** The certificate of that run is alive, with no certificate handle, no context and no usable store handle. */
  method StrandedCertificate() returns (w: World, losses: nat)
    ensures 0 in w.count && w.handles == multiset{} && w.lost == multiset{}
    ensures forall i | 0 <= i < |w.stores| :: w.stores[i].contexts == 0 && !w.stores[i].handle.Held?
  {
    hide OwnedByStores, World.Balanced, After, Losses, STRANDED_STORE;
    w := new World();
    losses := w.Run(STRANDED_STORE);
    StrandedStore();
    assert w.stores == [Store(Stranded, 0, None, [0])];
    OwnedMember(w.stores, 0, 0);
    assert w.stores[0].Owned(0) == 1;
    w.ExistsWhileOwned(0);
  }
}
