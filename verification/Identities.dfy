/** Identities, their verification states, and the fold that verifies a whole history
    (link-identities/src/generic.rs). */
module Identities {
  import opened Prelude
  import opened Delegation

  type Revision = nat
  type ContentId = nat
  type Signature = nat

  /** Whether a signature by a key is valid for a revision. */
  type Check = (Signature, Revision, Key) -> bool

  datatype Doc = Doc(replaced: Option<Revision>, delegations: Delegations)

  datatype Identity = Identity(contentId: ContentId, root: Revision, revision: Revision, doc: Doc,
                               signatures: map<Key, Signature>)

  datatype VerifyError =
    | NoSignatures | SignatureVerification | Eligibility | Quorum | ParentQuorum
    | RootMismatch(expected: Revision, actual: Revision)
    | DanglingParent(child: ContentId, parent: ContentId)
    | MissingParent(replaced: Revision)
    | ParentMismatch(expected: Revision, actual: Revision)
    | EmptyHistory | History

  type Verification = Result<Identity, VerifyError>

  // ---------- The states ----------

  predicate SignaturesValid(valid: Check, id: Identity) {
    forall k | k in id.signatures :: valid(id.signatures[k], id.revision, k)
  }

  function Signed(valid: Check, id: Identity): Verification {
    if id.signatures == map[] then Err(NoSignatures)
    else if !SignaturesValid(valid, id) then Err(SignatureVerification)
    else Ok(id)
  }

  function ReachQuorum(id: Identity): Verification {
    match Eligible(id.doc.delegations, id.signatures.Keys)
    case None => Err(Eligibility)
    case Some(keys) => if |keys| > 0 && |keys| > Threshold(id.doc.delegations) then Ok(id) else Err(Quorum)
  }

  function Verified(id: Identity, parent: Option<Identity>): Verification {
    if parent.Some? && parent.value.root != id.root then Err(RootMismatch(id.root, parent.value.root))
    else match (id.doc.replaced, parent)
      case (None, Some(p)) => Err(DanglingParent(id.contentId, p.contentId))
      case (Some(r), None) => Err(MissingParent(r))
      case (None, None) => Ok(id)
      case (Some(r), Some(p)) =>
        if r != p.revision then Err(ParentMismatch(r, p.revision))
        else match Eligible(p.doc.delegations, id.signatures.Keys)
          case None => Err(Eligibility)
          case Some(keys) => if |keys| > 0 && |keys| > Threshold(p.doc.delegations) then Ok(id) else Err(ParentQuorum)
  }

  // ---------- The fold ----------

  /** What the history iterator yields. */
  datatype Item = Loaded(id: Identity) | Broken

  datatype Folded = Folded(head: Identity, parent: Option<Identity>)

  type Folding = Result<Folded, VerifyError>

  predicate Confirms(acc: Folded, id: Identity) {
    id.revision == acc.head.revision && id.doc.replaced == acc.head.doc.replaced
  }

  function Step(valid: Check, acc: Folded, item: Item): Folding {
    if item.Broken? then Err(History)
    else match Signed(valid, item.id)
      case Err(e) => Err(e)
      case Ok(id) =>
        if ReachQuorum(id).Err? then Ok(acc)
        else if Confirms(acc, id) then
          if Verified(id, acc.parent).Ok? then Ok(Folded(id, acc.parent)) else Ok(acc)
        else match Verified(id, Some(acc.head))
          case Err(e) => Err(e)
          case Ok(head) => Ok(Folded(head, Some(acc.head)))
  }

  type Stepper = (Folded, Item) -> Folding

  /** The fold that stops at the first error. */
  function TryFold(step: Stepper, base: Identity, progeny: seq<Item>): Folding {
    if progeny == [] then Ok(Folded(base, None))
    else match TryFold(step, base, progeny[..|progeny| - 1])
      case Err(e) => Err(e)
      case Ok(acc) => step(acc, progeny[|progeny| - 1])
  }

  function Steps(valid: Check): Stepper {
    (acc, item) => Step(valid, acc, item)
  }

  function Verify(valid: Check, base: Identity, progeny: seq<Item>): Folding {
    TryFold(Steps(valid), base, progeny)
  }

  /** The first identity of a history, taken through all the states without a parent. */
  function VerifyRoot(valid: Check, item: Item): Verification {
    if item.Broken? then Err(History)
    else match Signed(valid, item.id)
      case Err(e) => Err(e)
      case Ok(id) => match ReachQuorum(id)
        case Err(e) => Err(e)
        case Ok(id) => Verified(id, None)
  }

  /** `items` are the identities of a history, oldest first. */
  function FoldVerify(valid: Check, items: seq<Item>): Folding {
    if items == [] then Err(EmptyHistory)
    else match VerifyRoot(valid, items[0])
      case Err(e) => Err(e)
      case Ok(root) => Verify(valid, root, items[1..])
  }

  // ---------- The chain behind a verified head ----------

  /** Signed by valid signatures only, and by a quorum of its own delegations. */
  predicate Sound(valid: Check, id: Identity) {
    && id.signatures != map[]
    && SignaturesValid(valid, id)
    && Majority(id.doc.delegations, id.signatures.Keys)
  }

  /** `id` succeeds `p`, with the consent of a quorum of the delegations of `p`. */
  predicate Succeeds(p: Identity, id: Identity) {
    && p.root == id.root
    && id.doc.replaced == Some(p.revision)
    && Majority(p.doc.delegations, id.signatures.Keys)
  }

  lemma SoundIff(valid: Check, id: Identity)
    ensures Signed(valid, id).Ok? && ReachQuorum(id).Ok? <==> Sound(valid, id)
  {
  }

  lemma SucceedsIff(p: Identity, id: Identity)
    ensures Verified(id, Some(p)).Ok? <==> Succeeds(p, id)
  {
  }

  /** A chain of sound identities, each succeeding the one before. */
  ghost predicate IsChain(valid: Check, chain: seq<Identity>) {
    && chain != []
    && (forall i | 0 <= i < |chain| :: Sound(valid, chain[i]))
    && (forall i | 0 < i < |chain| :: Succeeds(chain[i - 1], chain[i]))
  }

  /** The chain ends in the head, and before it comes the parent. */
  ghost predicate EndsIn(chain: seq<Identity>, f: Folded) {
    && chain != []
    && chain[|chain| - 1] == f.head
    && f.parent == if |chain| == 1 then None else Some(chain[|chain| - 2])
  }

  /** The chain is a subsequence of the items, at the indices `at`. */
  ghost predicate DrawnFrom(items: seq<Item>, chain: seq<Identity>, at: seq<nat>) {
    && |at| == |chain|
    && (forall i | 0 <= i < |at| :: at[i] < |items| && items[at[i]] == Loaded(chain[i]))
    && (forall i, j | 0 <= i < j < |at| :: at[i] < at[j])
  }

  /** What a step of the fold does to the chain: nothing, replace its last identity by a
      confirmation, or grow by one. */
  ghost function Advance(chain: seq<Identity>, acc: Folded, next: Folded): seq<Identity>
    requires chain != []
  {
    if next == acc then chain
    else if Confirms(acc, next.head) then chain[..|chain| - 1] + [next.head]
    else chain + [next.head]
  }

  lemma ChainPush(valid: Check, chain: seq<Identity>, id: Identity)
    requires Sound(valid, id) && (chain != [] ==> IsChain(valid, chain) && Succeeds(chain[|chain| - 1], id))
    ensures IsChain(valid, chain + [id])
  {
    var next := chain + [id];
    forall i | 0 <= i < |next| ensures Sound(valid, next[i]) { if i < |chain| { assert next[i] == chain[i]; } }
    forall i | 0 < i < |next|
      ensures Succeeds(next[i - 1], next[i])
    {
      if i < |chain| { assert Succeeds(chain[i - 1], chain[i]); }
    }
  }

  lemma ChainInit(valid: Check, chain: seq<Identity>)
    requires IsChain(valid, chain) && |chain| > 1
    ensures IsChain(valid, chain[..|chain| - 1])
  {
    var init := chain[..|chain| - 1];
    forall i | 0 < i < |init| ensures Succeeds(init[i - 1], init[i]) { assert Succeeds(chain[i - 1], chain[i]); }
  }

  /** What a step that changes something has checked. */
  lemma StepChecks(valid: Check, acc: Folded, item: Item)
    requires Step(valid, acc, item).Ok? && Step(valid, acc, item).value != acc
    ensures var next := Step(valid, acc, item).value;
            && item == Loaded(next.head) && Sound(valid, next.head)
            && (Confirms(acc, next.head) ==>
                  next.parent == acc.parent && (acc.parent.Some? ==> Succeeds(acc.parent.value, next.head)))
            && (!Confirms(acc, next.head) ==> next.parent == Some(acc.head) && Succeeds(acc.head, next.head))
  {
  }

  lemma AdvanceIsChain(valid: Check, chain: seq<Identity>, acc: Folded, item: Item)
    requires IsChain(valid, chain) && EndsIn(chain, acc) && Step(valid, acc, item).Ok?
    ensures IsChain(valid, Advance(chain, acc, Step(valid, acc, item).value))
    ensures EndsIn(Advance(chain, acc, Step(valid, acc, item).value), Step(valid, acc, item).value)
  {
    var next := Step(valid, acc, item).value;
    if next != acc {
      StepChecks(valid, acc, item);
      if Confirms(acc, next.head) {
        if |chain| > 1 { ChainInit(valid, chain); }
        ChainPush(valid, chain[..|chain| - 1], next.head);
      } else {
        ChainPush(valid, chain, next.head);
      }
    }
  }

  /** The chain a history builds up. */
  ghost function Chain(step: Stepper, base: Identity, progeny: seq<Item>): (chain: seq<Identity>)
    requires TryFold(step, base, progeny).Ok?
    ensures chain != []
  {
    if progeny == [] then [base] else
      var before := progeny[..|progeny| - 1];
      Advance(Chain(step, base, before), TryFold(step, base, before).value, TryFold(step, base, progeny).value)
  }

  ghost predicate KeepsChains(valid: Check, step: Stepper) {
    forall chain, acc, item {:trigger EndsIn(chain, acc), step(acc, item)} ::
      IsChain(valid, chain) && EndsIn(chain, acc) && step(acc, item).Ok? ==>
        && IsChain(valid, Advance(chain, acc, step(acc, item).value))
        && EndsIn(Advance(chain, acc, step(acc, item).value), step(acc, item).value)
  }

  lemma StepsKeepChains(valid: Check)
    ensures KeepsChains(valid, Steps(valid))
  {
    forall chain, acc, item | IsChain(valid, chain) && EndsIn(chain, acc) && Steps(valid)(acc, item).Ok?
      ensures IsChain(valid, Advance(chain, acc, Steps(valid)(acc, item).value))
      ensures EndsIn(Advance(chain, acc, Steps(valid)(acc, item).value), Steps(valid)(acc, item).value)
    {
      AdvanceIsChain(valid, chain, acc, item);
    }
  }

  lemma {:induction false} ChainHolds(valid: Check, step: Stepper, base: Identity, progeny: seq<Item>)
    requires KeepsChains(valid, step) && Sound(valid, base) && TryFold(step, base, progeny).Ok?
    ensures IsChain(valid, Chain(step, base, progeny))
    ensures EndsIn(Chain(step, base, progeny), TryFold(step, base, progeny).value)
  {
    if progeny != [] {
      ChainHolds(valid, step, base, progeny[..|progeny| - 1]);
    }
  }

  lemma DrawnPush(items: seq<Item>, chain: seq<Identity>, at: seq<nat>, id: Identity)
    requires DrawnFrom(items, chain, at)
    ensures DrawnFrom(items + [Loaded(id)], chain + [id], at + [|items|])
  {
  }

  lemma DrawnInit(items: seq<Item>, chain: seq<Identity>, at: seq<nat>)
    requires chain != [] && DrawnFrom(items, chain, at)
    ensures DrawnFrom(items, chain[..|chain| - 1], at[..|at| - 1])
  {
  }

  lemma AdvanceDrawn(items: seq<Item>, chain: seq<Identity>, at: seq<nat>, acc: Folded, item: Item, next: Folded)
      returns (now: seq<nat>)
    requires chain != [] && DrawnFrom(items, chain, at)
    requires next == acc || item == Loaded(next.head)
    ensures DrawnFrom(items + [item], Advance(chain, acc, next), now)
  {
    if next == acc {
      now := at;
    } else if Confirms(acc, next.head) {
      DrawnInit(items, chain, at);
      DrawnPush(items, chain[..|chain| - 1], at[..|at| - 1], next.head);
      now := at[..|at| - 1] + [|items|];
    } else {
      DrawnPush(items, chain, at, next.head);
      now := at + [|items|];
    }
  }

  /** A step keeps what was folded or takes the item for the head. */
  ghost predicate TakesItems(step: Stepper) {
    forall acc, item :: step(acc, item).Ok? ==> step(acc, item) == Ok(acc) || item == Loaded(step(acc, item).value.head)
  }

  lemma StepsTakeItems(valid: Check)
    ensures TakesItems(Steps(valid))
  {
    forall acc, item | Steps(valid)(acc, item).Ok?
      ensures Steps(valid)(acc, item) == Ok(acc) || item == Loaded(Steps(valid)(acc, item).value.head)
    {
      StepTakesItem(valid, acc, item);
    }
  }

  lemma StepTakesItem(valid: Check, acc: Folded, item: Item)
    requires Step(valid, acc, item).Ok?
    ensures Step(valid, acc, item) == Ok(acc) || item == Loaded(Step(valid, acc, item).value.head)
  {
  }

  lemma {:induction false} ChainDrawn(step: Stepper, base: Identity, progeny: seq<Item>) returns (at: seq<nat>)
    requires TakesItems(step) && TryFold(step, base, progeny).Ok?
    ensures DrawnFrom([Loaded(base)] + progeny, Chain(step, base, progeny), at)
  {
    if progeny == [] {
      at := [0];
    } else {
      var n := |progeny| - 1;
      var before := progeny[..n];
      at := ChainDrawn(step, base, before);
      at := AdvanceDrawn([Loaded(base)] + before, Chain(step, base, before), at,
                         TryFold(step, base, before).value, progeny[n], TryFold(step, base, progeny).value);
      assert ([Loaded(base)] + before) + [progeny[n]] == [Loaded(base)] + progeny;
    }
  }

  ghost function HistoryChain(valid: Check, items: seq<Item>): seq<Identity>
    requires FoldVerify(valid, items).Ok?
  {
    Chain(Steps(valid), VerifyRoot(valid, items[0]).value, items[1..])
  }

  lemma RootSound(valid: Check, item: Item)
    requires VerifyRoot(valid, item).Ok?
    ensures item == Loaded(VerifyRoot(valid, item).value) && Sound(valid, item.id) && item.id.doc.replaced == None
  {
  }

  /** A history that verifies joins its head to its first identity: by a chain of identities of
      the history, in order, each sound, each succeeding the one before, from one that replaces
      nothing and has the revision of the first identity. */
  lemma HeadJoinsRoot(valid: Check, items: seq<Item>) returns (chain: seq<Identity>, at: seq<nat>)
    requires FoldVerify(valid, items).Ok?
    ensures chain == HistoryChain(valid, items)
    ensures IsChain(valid, chain) && EndsIn(chain, FoldVerify(valid, items).value) && DrawnFrom(items, chain, at)
    ensures items[0].Loaded? && chain[0].revision == items[0].id.revision && chain[0].doc.replaced == None
    ensures forall i | 0 <= i < |chain| :: chain[i].root == chain[0].root
  {
    var root := VerifyRoot(valid, items[0]).value;
    RootSound(valid, items[0]);
    StepsKeepChains(valid);
    StepsTakeItems(valid);
    chain := HistoryChain(valid, items);
    ChainHolds(valid, Steps(valid), root, items[1..]);
    at := ChainDrawn(Steps(valid), root, items[1..]);
    assert items == [Loaded(root)] + items[1..];
    ChainStart(Steps(valid), root, items[1..]);
    SameRoot(valid, chain);
  }

  lemma {:induction false} SameRoot(valid: Check, chain: seq<Identity>)
    requires IsChain(valid, chain)
    ensures forall i | 0 <= i < |chain| :: chain[i].root == chain[0].root
  {
    if |chain| > 1 {
      ChainInit(valid, chain);
      SameRoot(valid, chain[..|chain| - 1]);
      assert Succeeds(chain[|chain| - 2], chain[|chain| - 1]);
    }
  }

  // ---------- And back ----------

  ghost function AsItems(chain: seq<Identity>): seq<Item> {
    seq(|chain|, i requires 0 <= i < |chain| => Loaded(chain[i]))
  }

  lemma StepTakes(valid: Check, acc: Folded, id: Identity)
    requires Sound(valid, id) && Succeeds(acc.head, id) && id.revision != acc.head.revision
    ensures Step(valid, acc, Loaded(id)) == Ok(Folded(id, Some(acc.head)))
  {
    SoundIff(valid, id);
    SucceedsIff(acc.head, id);
  }

  /** A step that grows any chain that ends before `i` by the identity there. */
  ghost predicate Grows(step: Stepper, chain: seq<Identity>, i: nat)
    requires 0 < i < |chain|
  {
    forall acc: Folded | acc.head == chain[i - 1] :: step(acc, Loaded(chain[i])) == Ok(Folded(chain[i], Some(acc.head)))
  }

  lemma {:induction false} ChainFolds(step: Stepper, chain: seq<Identity>, n: nat)
    requires 0 < n <= |chain|
    requires forall i: nat {:trigger Grows(step, chain, i)} | 0 < i < |chain| :: Grows(step, chain, i)
    ensures TryFold(step, chain[0], AsItems(chain)[1..n])
            == Ok(Folded(chain[n - 1], if n == 1 then None else Some(chain[n - 2])))
  {
    if n == 1 {
      assert AsItems(chain)[1..1] == [];
    } else {
      ChainFolds(step, chain, n - 1);
      assert AsItems(chain)[1..n][..n - 2] == AsItems(chain)[1..n - 1];
      assert Grows(step, chain, n - 1);
    }
  }

  lemma StepsGrow(valid: Check, chain: seq<Identity>, i: nat)
    requires IsChain(valid, chain) && 0 < i < |chain| && chain[i].revision != chain[i - 1].revision
    ensures Grows(Steps(valid), chain, i)
  {
    assert Succeeds(chain[i - 1], chain[i]) && Sound(valid, chain[i]);
    forall acc: Folded | acc.head == chain[i - 1]
      ensures Steps(valid)(acc, Loaded(chain[i])) == Ok(Folded(chain[i], Some(acc.head)))
    {
      StepTakes(valid, acc, chain[i]);
    }
  }

  /** Every chain of sound identities from one that replaces nothing verifies to its last. */
  lemma ChainVerifies(valid: Check, chain: seq<Identity>)
    requires IsChain(valid, chain) && chain[0].doc.replaced == None
    requires forall i | 0 < i < |chain| :: chain[i].revision != chain[i - 1].revision
    ensures FoldVerify(valid, AsItems(chain)).Ok? && EndsIn(chain, FoldVerify(valid, AsItems(chain)).value)
  {
    var items := AsItems(chain);
    assert items[0] == Loaded(chain[0]) && items[1..|chain|] == items[1..];
    forall i: nat | 0 < i < |chain| ensures Grows(Steps(valid), chain, i) { StepsGrow(valid, chain, i); }
    ChainFolds(Steps(valid), chain, |chain|);
    FoldFrom(valid, items, chain[0]);
  }

  lemma FoldFrom(valid: Check, items: seq<Item>, root: Identity)
    requires items != [] && items[0] == Loaded(root) && Sound(valid, root) && root.doc.replaced == None
    ensures FoldVerify(valid, items) == TryFold(Steps(valid), root, items[1..])
  {
    SoundIff(valid, root);
  }

  // ---------- Prefixes ----------

  ghost function Revisions(chain: seq<Identity>): seq<Revision> {
    seq(|chain|, i requires 0 <= i < |chain| => chain[i].revision)
  }

  lemma {:induction false} ChainStart(step: Stepper, base: Identity, progeny: seq<Item>)
    requires TryFold(step, base, progeny).Ok?
    ensures Chain(step, base, progeny)[0].revision == base.revision
    ensures Chain(step, base, progeny)[0].doc.replaced == base.doc.replaced
  {
    if progeny != [] {
      ChainStart(step, base, progeny[..|progeny| - 1]);
      ChainEnd(step, base, progeny[..|progeny| - 1]);
    }
  }

  lemma {:induction false} ChainEnd(step: Stepper, base: Identity, progeny: seq<Item>)
    requires TryFold(step, base, progeny).Ok?
    ensures var chain := Chain(step, base, progeny); chain[|chain| - 1] == TryFold(step, base, progeny).value.head
  {
    if progeny != [] {
      ChainEnd(step, base, progeny[..|progeny| - 1]);
    }
  }

  lemma AdvanceRevisions(chain: seq<Identity>, acc: Folded, next: Folded)
    requires chain != [] && chain[|chain| - 1] == acc.head
    ensures Revisions(chain) <= Revisions(Advance(chain, acc, next))
  {
    var grown := Advance(chain, acc, next);
    assert |chain| <= |grown| && forall i | 0 <= i < |chain| :: Revisions(chain)[i] == Revisions(grown)[i];
  }

  lemma ChainGrows(step: Stepper, base: Identity, progeny: seq<Item>)
    requires progeny != [] && TryFold(step, base, progeny).Ok?
    ensures TryFold(step, base, progeny[..|progeny| - 1]).Ok?
    ensures Revisions(Chain(step, base, progeny[..|progeny| - 1])) <= Revisions(Chain(step, base, progeny))
  {
    var before := progeny[..|progeny| - 1];
    ChainEnd(step, base, before);
    AdvanceRevisions(Chain(step, base, before), TryFold(step, base, before).value, TryFold(step, base, progeny).value);
  }

  /** What was verified once stays on the chain: every prefix of a history that verifies
      verifies, and its chain of revisions begins the one of the whole history. */
  lemma {:induction false} PrefixOnChain(step: Stepper, base: Identity, progeny: seq<Item>, k: nat)
    requires k <= |progeny| && TryFold(step, base, progeny).Ok?
    ensures TryFold(step, base, progeny[..k]).Ok?
    ensures Revisions(Chain(step, base, progeny[..k])) <= Revisions(Chain(step, base, progeny))
  {
    if k == |progeny| {
      assert progeny[..k] == progeny;
    } else {
      var before := progeny[..|progeny| - 1];
      ChainGrows(step, base, progeny);
      PrefixOnChain(step, base, before, k);
      assert before[..k] == progeny[..k];
      PrefixTransitive(Revisions(Chain(step, base, progeny[..k])), Revisions(Chain(step, base, before)),
                       Revisions(Chain(step, base, progeny)));
    }
  }

  lemma PrefixTransitive<T>(a: seq<T>, b: seq<T>, c: seq<T>)
    requires a <= b <= c
    ensures a <= c
  {
  }

  lemma PrefixHeadOnChain(step: Stepper, base: Identity, progeny: seq<Item>, k: nat)
    requires k <= |progeny| && TryFold(step, base, progeny).Ok?
    ensures TryFold(step, base, progeny[..k]).Ok?
    ensures TryFold(step, base, progeny[..k]).value.head.revision in Revisions(Chain(step, base, progeny))
  {
    PrefixOnChain(step, base, progeny, k);
    ChainEnd(step, base, progeny[..k]);
    var short, long := Chain(step, base, progeny[..k]), Chain(step, base, progeny);
    assert Revisions(long)[|short| - 1] == Revisions(short)[|short| - 1];
  }

  /** The head verified for a prefix of a history has a revision of the chain of the whole. */
  lemma PrefixHeadStays(valid: Check, items: seq<Item>, k: nat)
    requires 0 < k <= |items| && FoldVerify(valid, items).Ok?
    ensures FoldVerify(valid, items[..k]).Ok?
    ensures FoldVerify(valid, items[..k]).value.head.revision in Revisions(HistoryChain(valid, items))
  {
    FoldPrefix(valid, items, k);
    PrefixHeadOnChain(Steps(valid), VerifyRoot(valid, items[0]).value, items[1..], k - 1);
  }

  lemma FoldPrefix(valid: Check, items: seq<Item>, k: nat)
    requires 0 < k <= |items| && VerifyRoot(valid, items[0]).Ok?
    ensures FoldVerify(valid, items[..k])
            == TryFold(Steps(valid), VerifyRoot(valid, items[0]).value, items[1..][..k - 1])
  {
    assert items[..k][0] == items[0];
    assert items[..k][1..] == items[1..][..k - 1];
  }

  // ---------- Proposals below quorum ----------

  /** A signed proposal that does not reach the quorum of its own delegations. */
  predicate Proposal(valid: Check, item: Item) {
    item.Loaded? && Signed(valid, item.id).Ok? && ReachQuorum(item.id).Err?
  }

  function WithoutProposals(valid: Check, items: seq<Item>): seq<Item> {
    if items == [] then [] else
      var rest := WithoutProposals(valid, items[..|items| - 1]);
      if Proposal(valid, items[|items| - 1]) then rest else rest + [items[|items| - 1]]
  }

  ghost predicate SkipsProposals(valid: Check, step: Stepper) {
    forall acc, item | Proposal(valid, item) :: step(acc, item) == Ok(acc)
  }

  lemma {:induction false} SkippedInFold(valid: Check, step: Stepper, base: Identity, progeny: seq<Item>)
    requires SkipsProposals(valid, step)
    ensures TryFold(step, base, progeny) == TryFold(step, base, WithoutProposals(valid, progeny))
  {
    if progeny != [] {
      var rest := WithoutProposals(valid, progeny[..|progeny| - 1]);
      var last := progeny[|progeny| - 1];
      SkippedInFold(valid, step, base, progeny[..|progeny| - 1]);
      if !Proposal(valid, last) {
        assert (rest + [last])[..|rest|] == rest;
      }
    }
  }

  /** Proposals below quorum are invisible, wherever they stand. */
  lemma ProposalsInvisible(valid: Check, base: Identity, progeny: seq<Item>)
    ensures Verify(valid, base, progeny) == Verify(valid, base, WithoutProposals(valid, progeny))
  {
    assert SkipsProposals(valid, Steps(valid));
    SkippedInFold(valid, Steps(valid), base, progeny);
  }

  /** Two histories with the same items that are no proposals verify alike. */
  lemma QuorumsDecide(valid: Check, base: Identity, a: seq<Item>, b: seq<Item>)
    requires WithoutProposals(valid, a) == WithoutProposals(valid, b)
    ensures Verify(valid, base, a) == Verify(valid, base, b)
  {
    ProposalsInvisible(valid, base, a);
    ProposalsInvisible(valid, base, b);
  }

  // ---------- Forks ----------

  /** Two successors of the same identity have a voter in common who signed both. */
  lemma ForkNeedsDoubleSigner(p: Identity, a: Identity, b: Identity)
    requires WellFormed(p.doc.delegations) && Succeeds(p, a) && Succeeds(p, b)
    ensures var d := p.doc.delegations;
            exists k, l ::
              && k in a.signatures && l in b.signatures && VoterOf(d, k) == VoterOf(d, l)
              && k in Voting(d, a.signatures.Keys) && l in Voting(d, b.signatures.Keys)
  {
    QuorumsIntersect(p.doc.delegations, a.signatures.Keys, b.signatures.Keys);
  }

  /** Equal revisions come with the same document, as they do when revisions are hashes. */
  ghost predicate SameDocs(a: seq<Item>, b: seq<Item>) {
    forall i, j | 0 <= i < |a| && 0 <= j < |b| && a[i].Loaded? && b[j].Loaded? ::
      a[i].id.revision == b[j].id.revision ==> a[i].id.doc == b[j].id.doc
  }

  ghost predicate AllWellFormed(items: seq<Item>) {
    forall i | 0 <= i < |items| && items[i].Loaded? :: WellFormed(items[i].id.doc.delegations)
  }

  /** A voter of the delegations validly signed both. */
  ghost predicate DoubleSigned(valid: Check, d: Delegations, a: Identity, b: Identity) {
    exists k, l :: k in a.signatures && valid(a.signatures[k], a.revision, k) && k in Voting(d, a.signatures.Keys)
                   && l in b.signatures && valid(b.signatures[l], b.revision, l) && l in Voting(d, b.signatures.Keys)
                   && VoterOf(d, k) == VoterOf(d, l)
  }

  /** The chains have the same revisions up to `n`, where they go on with different ones that a
      voter of the last common document both signed. */
  ghost predicate ForksAt(valid: Check, a: seq<Identity>, b: seq<Identity>, n: nat) {
    && 0 < n < |a| && n < |b| && Revisions(a)[..n] == Revisions(b)[..n] && a[n].revision != b[n].revision
    && a[n - 1].doc == b[n - 1].doc && DoubleSigned(valid, a[n - 1].doc.delegations, a[n], b[n])
  }

  ghost predicate Comparable<T>(a: seq<T>, b: seq<T>) {
    a <= b || b <= a
  }

  /** How far two sequences agree. */
  lemma Agreement<T>(a: seq<T>, b: seq<T>) returns (n: nat)
    ensures n <= |a| && n <= |b| && a[..n] == b[..n]
    ensures Comparable(a, b) || (n < |a| && n < |b| && a[n] != b[n])
  {
    n := 0;
    while n < |a| && n < |b| && a[n] == b[n]
      invariant n <= |a| && n <= |b| && a[..n] == b[..n]
    {
      n := n + 1;
    }
  }

  lemma SuccessorsDoubleSigned(valid: Check, a: seq<Identity>, b: seq<Identity>, n: nat)
    requires IsChain(valid, a) && IsChain(valid, b) && 0 < n < |a| && n < |b| && a[n - 1].doc == b[n - 1].doc
    requires WellFormed(a[n - 1].doc.delegations)
    ensures DoubleSigned(valid, a[n - 1].doc.delegations, a[n], b[n])
  {
    var d := a[n - 1].doc.delegations;
    assert Succeeds(a[n - 1], a[n]) && Succeeds(b[n - 1], b[n]) && Sound(valid, a[n]) && Sound(valid, b[n]);
    QuorumsIntersect(d, a[n].signatures.Keys, b[n].signatures.Keys);
    var k, l :| k in Voting(d, a[n].signatures.Keys) && l in Voting(d, b[n].signatures.Keys)
      && VoterOf(d, k) == VoterOf(d, l);
  }

  lemma DocsAlong(a: seq<Item>, ca: seq<Identity>, at: seq<nat>, b: seq<Item>, cb: seq<Identity>, bt: seq<nat>, i: nat)
    requires DrawnFrom(a, ca, at) && DrawnFrom(b, cb, bt) && SameDocs(a, b) && AllWellFormed(a)
    requires i < |ca| && i < |cb| && ca[i].revision == cb[i].revision
    ensures ca[i].doc == cb[i].doc && WellFormed(ca[i].doc.delegations)
  {
    assert a[at[i]] == Loaded(ca[i]) && b[bt[i]] == Loaded(cb[i]);
  }

  lemma ChainsFork(valid: Check, a: seq<Item>, ca: seq<Identity>, at: seq<nat>, b: seq<Item>, cb: seq<Identity>,
                   bt: seq<nat>)
    requires DrawnFrom(a, ca, at) && DrawnFrom(b, cb, bt) && SameDocs(a, b) && AllWellFormed(a)
    requires IsChain(valid, ca) && IsChain(valid, cb) && ca[0].revision == cb[0].revision
    ensures Comparable(Revisions(ca), Revisions(cb)) || exists n :: ForksAt(valid, ca, cb, n)
  {
    var n := Agreement(Revisions(ca), Revisions(cb));
    if !Comparable(Revisions(ca), Revisions(cb)) {
      LastCommon(ca, cb, n);
      DocsAlong(a, ca, at, b, cb, bt, n - 1);
      SuccessorsDoubleSigned(valid, ca, cb, n);
      assert ForksAt(valid, ca, cb, n);
    }
  }

  lemma LastCommon(a: seq<Identity>, b: seq<Identity>, n: nat)
    requires n < |a| && n < |b| && Revisions(a)[..n] == Revisions(b)[..n]
    requires a[0].revision == b[0].revision && Revisions(a)[n] != Revisions(b)[n]
    ensures 0 < n && a[n - 1].revision == b[n - 1].revision && a[n].revision != b[n].revision
  {
    assert n > 0 ==> Revisions(a)[..n][n - 1] == Revisions(b)[..n][n - 1];
  }

  /** Two histories that verify and begin with the same revision: the revisions of one chain begin
      those of the other, or at the first difference a voter of the last common document signed
      both ways to go on. */
  lemma HistoriesFork(valid: Check, a: seq<Item>, b: seq<Item>)
    requires FoldVerify(valid, a).Ok? && FoldVerify(valid, b).Ok? && SameDocs(a, b) && AllWellFormed(a)
    requires a[0].Loaded? && b[0].Loaded? && a[0].id.revision == b[0].id.revision
    ensures var ca, cb := HistoryChain(valid, a), HistoryChain(valid, b);
            Comparable(Revisions(ca), Revisions(cb)) || exists n :: ForksAt(valid, ca, cb, n)
  {
    var ca, at := HeadJoinsRoot(valid, a);
    var cb, bt := HeadJoinsRoot(valid, b);
    ChainsFork(valid, a, ca, at, b, cb, bt);
  }

  // ---------- The root ----------

  /** Equal revisions come with the same root, as they do when both are hashes. */
  ghost predicate ContentAddressed(items: seq<Item>) {
    forall i, j | 0 <= i < |items| && 0 <= j < |items| && items[i].Loaded? && items[j].Loaded? ::
      items[i].id.revision == items[j].id.revision ==> items[i].id.root == items[j].id.root
  }

  /** With content addressing the head has the root of the first identity. */
  lemma HeadKeepsRoot(valid: Check, items: seq<Item>)
    requires FoldVerify(valid, items).Ok? && ContentAddressed(items)
    ensures FoldVerify(valid, items).value.head.root == items[0].id.root
  {
    var chain, at := HeadJoinsRoot(valid, items);
    assert items[at[0]] == Loaded(chain[0]);
  }

  /** A sound identity that replaces nothing. */
  predicate IsBare(valid: Check, item: Item) {
    item.Loaded? && Sound(valid, item.id) && item.id.doc.replaced == None
  }

  /** The last sound identity that replaces nothing. */
  function LastBare(valid: Check, base: Identity, progeny: seq<Item>): Identity {
    if progeny == [] then base
    else if IsBare(valid, progeny[|progeny| - 1]) then progeny[|progeny| - 1].id
    else LastBare(valid, base, progeny[..|progeny| - 1])
  }

  /** A step that succeeds takes an identity that replaces nothing for the start of the chain, and
      with any other the chain keeps its start. */
  lemma BareStarts(valid: Check, chain: seq<Identity>, acc: Folded, item: Item)
    requires IsChain(valid, chain) && EndsIn(chain, acc) && chain[0].doc.replaced == None && Step(valid, acc, item).Ok?
    ensures Advance(chain, acc, Step(valid, acc, item).value)[0] == if IsBare(valid, item) then item.id else chain[0]
  {
    var next := Step(valid, acc, item).value;
    if |chain| > 1 { assert Succeeds(chain[|chain| - 2], chain[|chain| - 1]); }
    if next != acc { StepChecks(valid, acc, item); }
  }

  lemma {:induction false} ChainStartsBare(valid: Check, base: Identity, progeny: seq<Item>)
    requires IsBare(valid, Loaded(base)) && TryFold(Steps(valid), base, progeny).Ok?
    ensures Chain(Steps(valid), base, progeny)[0] == LastBare(valid, base, progeny)
  {
    if progeny != [] {
      var before, step := progeny[..|progeny| - 1], Steps(valid);
      ChainStartsBare(valid, base, before);
      StepsKeepChains(valid);
      ChainHolds(valid, step, base, before);
      ChainStart(step, base, before);
      BareStarts(valid, Chain(step, base, before), TryFold(step, base, before).value, progeny[|progeny| - 1]);
    }
  }

  /** The head of a history has the root of the first identity if and only if the last sound
      identity that replaces nothing has it. */
  lemma HeadKeepsRootIff(valid: Check, items: seq<Item>)
    requires FoldVerify(valid, items).Ok?
    ensures items[0].Loaded?
    ensures FoldVerify(valid, items).value.head.root == LastBare(valid, items[0].id, items[1..]).root
    ensures FoldVerify(valid, items).value.head.root == items[0].id.root
            <==> LastBare(valid, items[0].id, items[1..]).root == items[0].id.root
  {
    RootSound(valid, items[0]);
    var chain, at := HeadJoinsRoot(valid, items);
    ChainStartsBare(valid, items[0].id, items[1..]);
  }

  /** Without it a confirmation of the first identity can bring in another root: it is verified
      without a parent, so nothing compares the two. */
  lemma RootNotCompared(valid: Check, a: Identity, b: Identity)
    requires Sound(valid, a) && Sound(valid, b) && a.doc.replaced == b.doc.replaced == None && a.revision == b.revision
    ensures FoldVerify(valid, [Loaded(a), Loaded(b)]) == Ok(Folded(b, None))
  {
    var items := [Loaded(a), Loaded(b)];
    SoundIff(valid, a);
    SoundIff(valid, b);
    assert items[1..] == [Loaded(b)];
    assert [Loaded(b)][..0] == [];
    assert TryFold(Steps(valid), a, []) == Ok(Folded(a, None));
  }
}
