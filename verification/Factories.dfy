/**
 Creating receipts, retention nodes, closures and confirmations from parts in any
 order: the parts are sorted, checked and hashed, so what is created does not
 depend on the order they were given in.
 */
module Factories {
  import opened Basics
  import opened Contracts
  import opened RetentionGraph
  import opened RetentionIndex
  import opened Sorting

  /* ---- Keys ---- */

  function ArtifactKey(a: Artifact): string { a.artifactId }

  predicate ArtifactBefore(a: Artifact, b: Artifact) { Less(a.artifactId, b.artifactId) }

  function NodeKey(n: Node): string { n.Id() }

  predicate NodeBefore(a: Node, b: Node) { Less(a.Id(), b.Id()) }

  function ItemKey(i: ConfirmationItem): string { i.Id() }

  predicate ItemBefore(a: ConfirmationItem, b: ConfirmationItem) { Less(a.Id(), b.Id()) }

  lemma {:induction false} MembersKept<T>(before: (T, T) -> bool, xs: seq<T>)
    ensures forall x :: x in Sort(before, xs) <==> x in xs
    ensures |Sort(before, xs)| == |xs|
  {
    SortPermutes(before, xs);
    forall x ensures x in Sort(before, xs) <==> x in xs {
      MemberOf(x, xs);
      MemberOf(x, Sort(before, xs));
    }
    assert |multiset(xs)| == |xs| && |multiset(Sort(before, xs))| == |Sort(before, xs)|;
  }

  /* ---- Receipts ---- */

  function CreateReceipt(sha: Sha, contract: string, ref: InputRef, artifacts: seq<Artifact>): Option<Receipt> {
    if !IsVersion(contract) || artifacts == [] || !KeysDistinct(ArtifactKey, artifacts) then None
    else
      var sorted := Sort(ArtifactBefore, artifacts);
      var hash := sha(ReceiptIdentity(RECEIPT_SCHEMA_VERSION, contract, ref, sorted));
      Some(Receipt(RECEIPT_SCHEMA_VERSION, contract, ref, sorted, hash))
  }

  predicate ArtifactsValid(artifacts: seq<Artifact>) {
    forall a :: a in artifacts ==> ValidArtifact(a)
  }

  lemma {:induction false} SortedArtifactsNormal(artifacts: seq<Artifact>)
    requires ArtifactsValid(artifacts) && artifacts != [] && KeysDistinct(ArtifactKey, artifacts)
    ensures ArtifactsNormal(Sort(ArtifactBefore, artifacts))
  {
    hide ValidArtifact;
    SortAscends(ArtifactBefore, ArtifactKey, artifacts);
    MembersKept(ArtifactBefore, artifacts);
    var sorted := Sort(ArtifactBefore, artifacts);
    assert KeysAscend(ArtifactKey, sorted);
    forall i, j | 0 <= i < j < |sorted| ensures Less(sorted[i].artifactId, sorted[j].artifactId) {
      assert Less(ArtifactKey(sorted[i]), ArtifactKey(sorted[j]));
    }
  }

  /** What is created is valid and lists exactly the given artifacts. */
  lemma CreatedReceiptValid(sha: Sha, contract: string, ref: InputRef, artifacts: seq<Artifact>)
    requires ValidInputRef(ref) && ArtifactsValid(artifacts)
    ensures var r := CreateReceipt(sha, contract, ref, artifacts);
            r.Some? ==> ValidReceipt(sha, r.value) && multiset(r.value.artifacts) == multiset(artifacts)
  {
    hide IsVersion, ValidInputRef, ArtifactsNormal, ArtifactsValid, Sort;
    if CreateReceipt(sha, contract, ref, artifacts).Some? {
      SortedArtifactsNormal(artifacts);
      SortPermutes(ArtifactBefore, artifacts);
    }
  }

  /** The order of the artifacts does not enter the receipt or its hash. */
  lemma ReceiptOrderIndependent(sha: Sha, contract: string, ref: InputRef, a: seq<Artifact>, b: seq<Artifact>)
    requires multiset(a) == multiset(b)
    ensures CreateReceipt(sha, contract, ref, a) == CreateReceipt(sha, contract, ref, b)
  {
    hide IsVersion, Sort;
    assert |multiset(a)| == |a| && |multiset(b)| == |b|;
    if KeysDistinct(ArtifactKey, a) {
      PermutedDistinct(ArtifactKey, a, b);
      KeySortIndependent(ArtifactBefore, ArtifactKey, a, b);
    }
    if KeysDistinct(ArtifactKey, b) { PermutedDistinct(ArtifactKey, b, a); }
  }

  /** Every valid receipt is the one its own parts create. */
  lemma ReceiptRecreated(sha: Sha, r: Receipt)
    requires ValidReceipt(sha, r)
    ensures CreateReceipt(sha, r.contractVersion, r.inputRef, r.artifacts) == Some(r)
  {
    hide IsVersion, ValidInputRef, ValidArtifact, Sort;
    forall i, j | 0 <= i < j < |r.artifacts| ensures Less(ArtifactKey(r.artifacts[i]), ArtifactKey(r.artifacts[j])) {}
    AscendingFixed(ArtifactBefore, ArtifactKey, r.artifacts);
  }

  /* ---- Retention nodes and closures ---- */

  function CreateNode(ref: InputRef, manifestHash: Digest, manifestSize: nat, artifacts: seq<Artifact>, dependencies: seq<Id>):
    Option<Node>
  {
    if manifestSize == 0 || artifacts == [] || !KeysDistinct(ArtifactKey, artifacts)
       || !Distinct(dependencies) || !(forall d :: d in dependencies ==> IsReleaseId(d)) || ref.releaseId in dependencies
    then None
    else Some(Node(ref, manifestHash, manifestSize, Sort(ArtifactBefore, artifacts), SortedList(Elements(dependencies))))
  }

  lemma CreatedNodeValid(ref: InputRef, manifestHash: Digest, manifestSize: nat, artifacts: seq<Artifact>, dependencies: seq<Id>)
    requires ValidInputRef(ref) && ValidDigest(manifestHash) && ArtifactsValid(artifacts)
    ensures var n := CreateNode(ref, manifestHash, manifestSize, artifacts, dependencies);
            n.Some? ==> ValidNode(n.value) && Elements(n.value.dependencies) == Elements(dependencies)
                        && multiset(n.value.artifacts) == multiset(artifacts)
  {
    hide ValidInputRef, IsSha256, ArtifactsNormal, ArtifactsValid, Sort, SortedList, IsReleaseId, StrictlySorted;
    if CreateNode(ref, manifestHash, manifestSize, artifacts, dependencies).Some? {
      SortedArtifactsNormal(artifacts);
      SortPermutes(ArtifactBefore, artifacts);
      assert ref.releaseId !in Elements(dependencies);
    }
  }

  /** Neither the order of the artifacts nor that of the dependencies enters a node. */
  lemma NodeOrderIndependent(ref: InputRef, manifestHash: Digest, manifestSize: nat, a: seq<Artifact>, b: seq<Artifact>,
                             d: seq<Id>, e: seq<Id>)
    requires multiset(a) == multiset(b) && multiset(d) == multiset(e)
    ensures CreateNode(ref, manifestHash, manifestSize, a, d) == CreateNode(ref, manifestHash, manifestSize, b, e)
  {
    hide Sort, SortedList, IsReleaseId;
    assert |multiset(a)| == |a| && |multiset(b)| == |b|;
    if KeysDistinct(ArtifactKey, a) {
      PermutedDistinct(ArtifactKey, a, b);
      KeySortIndependent(ArtifactBefore, ArtifactKey, a, b);
    }
    if KeysDistinct(ArtifactKey, b) { PermutedDistinct(ArtifactKey, b, a); }
    if Distinct(d) { DistinctPermuted(d, e); }
    if Distinct(e) { DistinctPermuted(e, d); }
    forall x ensures x in d <==> x in e {
      MemberOf(x, d);
      MemberOf(x, e);
    }
    assert Elements(d) == Elements(e);
  }

  lemma DistinctPermuted(d: seq<Id>, e: seq<Id>)
    requires multiset(d) == multiset(e) && Distinct(d)
    ensures Distinct(e)
  {
    PermutedDistinct((x: Id) => x, d, e);
    forall i, j | 0 <= i < j < |e| ensures e[i] != e[j] {}
  }

  ghost predicate RootListed(root: InputRef, nodes: seq<Node>) {
    exists i :: 0 <= i < |nodes| && nodes[i].inputRef == root
  }

  ghost function ClosureFrom(sha: Sha, root: InputRef, nodes: seq<Node>): Option<Closure> {
    var sorted := Sort(NodeBefore, nodes);
    if nodes == [] || !KeysDistinct(NodeKey, nodes) || !Accepted(GraphOf(sorted), root.releaseId) || !RootListed(root, sorted)
    then None
    else Some(Closure(CLOSURE_SCHEMA_VERSION, root, sorted, sha(ClosureIdentity(CLOSURE_SCHEMA_VERSION, root, sorted))))
  }

  lemma {:induction false} SortedNodesNormal(nodes: seq<Node>)
    requires nodes != [] && KeysDistinct(NodeKey, nodes)
    ensures NodesNormal(Sort(NodeBefore, nodes))
  {
    SortAscends(NodeBefore, NodeKey, nodes);
    MembersKept(NodeBefore, nodes);
    var sorted := Sort(NodeBefore, nodes);
    forall i, j | 0 <= i < j < |sorted| ensures Less(sorted[i].Id(), sorted[j].Id()) {
      assert Less(NodeKey(sorted[i]), NodeKey(sorted[j]));
    }
  }

  /** Sorts the nodes, checks the graph and hashes the closure. */
  method CreateClosure(sha: Sha, root: InputRef, nodes: seq<Node>) returns (r: Option<Closure>)
    requires forall n :: n in nodes ==> ValidNode(n)
    ensures r == ClosureFrom(sha, root, nodes)
  {
    hide ValidNode, Accepted, NodesNormal, Sort;
    if nodes == [] || !KeysDistinct(NodeKey, nodes) { return None; }
    var sorted := Sort(NodeBefore, nodes);
    SortedNodesNormal(nodes);
    MembersKept(NodeBefore, nodes);
    NormalNodesDistinct(sorted);
    NodesHaveDistinctDependencies(sorted);
    var graph := ValidateReleaseGraph(root.releaseId, sorted);
    if graph.Err? { return None; }
    if !(exists i :: 0 <= i < |sorted| && sorted[i].inputRef == root) { return None; }
    r := Some(Closure(CLOSURE_SCHEMA_VERSION, root, sorted, sha(ClosureIdentity(CLOSURE_SCHEMA_VERSION, root, sorted))));
  }

  lemma NodesHaveDistinctDependencies(nodes: seq<Node>)
    requires forall n :: n in nodes ==> ValidNode(n)
    ensures forall i :: 0 <= i < |nodes| ==> Distinct(nodes[i].dependencies)
  {
    hide ValidInputRef, IsSha256, ArtifactsNormal, StrictlySorted;
    forall i | 0 <= i < |nodes| ensures Distinct(nodes[i].dependencies) {
      assert ValidNode(nodes[i]);
      SortedDistinct(nodes[i].dependencies);
    }
  }

  lemma CreatedClosureValid(sha: Sha, root: InputRef, nodes: seq<Node>)
    requires forall n :: n in nodes ==> ValidNode(n)
    ensures var c := ClosureFrom(sha, root, nodes);
            c.Some? ==> ValidClosure(sha, c.value) && multiset(c.value.releases) == multiset(nodes)
  {
    hide ValidNode, Accepted, NodesNormal, Sort;
    if ClosureFrom(sha, root, nodes).Some? {
      SortedNodesNormal(nodes);
      MembersKept(NodeBefore, nodes);
      SortPermutes(NodeBefore, nodes);
      var sorted := Sort(NodeBefore, nodes);
      assert forall i :: 0 <= i < |sorted| ==> sorted[i] in sorted;
    }
  }

  /** The order of the releases does not enter the closure or its hash. */
  lemma ClosureOrderIndependent(sha: Sha, root: InputRef, a: seq<Node>, b: seq<Node>)
    requires multiset(a) == multiset(b)
    ensures ClosureFrom(sha, root, a) == ClosureFrom(sha, root, b)
  {
    hide Accepted, Sort, RootListed;
    assert |multiset(a)| == |a| && |multiset(b)| == |b|;
    if KeysDistinct(NodeKey, a) {
      PermutedDistinct(NodeKey, a, b);
      KeySortIndependent(NodeBefore, NodeKey, a, b);
    }
    if KeysDistinct(NodeKey, b) { PermutedDistinct(NodeKey, b, a); }
  }

  lemma ClosureRecreated(sha: Sha, c: Closure)
    requires ValidClosure(sha, c)
    ensures ClosureFrom(sha, c.root, c.releases) == Some(c)
  {
    hide ValidNode, Accepted, Sort;
    forall i, j | 0 <= i < j < |c.releases| ensures Less(NodeKey(c.releases[i]), NodeKey(c.releases[j])) {}
    AscendingFixed(NodeBefore, NodeKey, c.releases);
  }

  /* ---- Confirmations ---- */

  /** What the parts of a confirmation must satisfy before it is hashed. */
  predicate DraftAccepted(c: Confirmation) {
    && c.schemaVersion == CONFIRMATION_SCHEMA_VERSION
    && IsId(c.confirmationId) && IsId(c.runId) && IsReleaseId(c.rootReleaseId) && IsId(c.authorityId)
    && ConfirmationWindow(c)
    && c.items != [] && KeysDistinct(ItemKey, c.items)
    && exists i :: 0 <= i < |c.items| && c.items[i].Id() == c.rootReleaseId
  }

  /** Orders the items of a draft and seals it; the hash the draft carries is ignored. */
  function CreateConfirmation(sha: Sha, draft: Confirmation): Option<Confirmation> {
    if !DraftAccepted(draft) then None
    else
      var c := draft.(items := Sort(ItemBefore, draft.items));
      Some(c.(confirmationHash := sha(ConfirmationPayload(c))))
  }

  /** The one hash that sealing this draft asks for is a SHA-256 digest; nothing is said of other payloads. */
  ghost predicate SealsToDigest(sha: Sha, draft: Confirmation) {
    ValidDigest(sha(ConfirmationPayload(draft.(items := Sort(ItemBefore, draft.items)))))
  }

  predicate DraftTyped(c: Confirmation) {
    && ValidDigest(c.receiptHash) && ValidDigest(c.closureHash) && ValidDigest(c.authorityContract)
    && forall i :: i in c.items ==> ItemSyntax(i)
  }

  lemma {:induction false} SortedItemsNormal(items: seq<ConfirmationItem>)
    requires items != [] && KeysDistinct(ItemKey, items)
    ensures ItemsNormal(Sort(ItemBefore, items))
  {
    SortAscends(ItemBefore, ItemKey, items);
    MembersKept(ItemBefore, items);
    var sorted := Sort(ItemBefore, items);
    forall i, j | 0 <= i < j < |sorted| ensures Less(sorted[i].Id(), sorted[j].Id()) {
      assert Less(ItemKey(sorted[i]), ItemKey(sorted[j]));
    }
  }

  lemma CreatedConfirmationValid(sha: Sha, draft: Confirmation)
    requires DraftTyped(draft) && SealsToDigest(sha, draft)
    ensures var c := CreateConfirmation(sha, draft);
            c.Some? ==> ValidConfirmation(sha, c.value) && multiset(c.value.items) == multiset(draft.items)
  {
    hide IsId, IsReleaseId, IsSha256, ItemSyntax, ItemsNormal, Sort;
    if DraftAccepted(draft) {
      var c := CreateConfirmation(sha, draft).value;
      SortedItemsNormal(draft.items);
      MembersKept(ItemBefore, draft.items);
      SortPermutes(ItemBefore, draft.items);
      assert forall i :: 0 <= i < |c.items| ==> c.items[i] in draft.items;
      var r :| 0 <= r < |draft.items| && draft.items[r].Id() == draft.rootReleaseId;
      assert draft.items[r] in c.items;
      assert ConfirmationPayload(c) == ConfirmationPayload(draft.(items := c.items));
    }
  }

  /** Neither the order of the items nor a hash given beforehand enters the result. */
  lemma ConfirmationOrderIndependent(sha: Sha, draft: Confirmation, items: seq<ConfirmationItem>, hash: Digest)
    requires multiset(draft.items) == multiset(items)
    ensures CreateConfirmation(sha, draft) == CreateConfirmation(sha, draft.(items := items, confirmationHash := hash))
  {
    hide IsId, IsReleaseId, Sort;
    var other := draft.(items := items, confirmationHash := hash);
    if DraftAccepted(draft) { DraftPermuted(draft, other); }
    if DraftAccepted(other) { DraftPermuted(other, draft); }
    if DraftAccepted(draft) { KeySortIndependent(ItemBefore, ItemKey, draft.items, items); }
  }

  lemma DraftPermuted(a: Confirmation, b: Confirmation)
    requires DraftAccepted(a) && multiset(a.items) == multiset(b.items)
    requires b == a.(items := b.items, confirmationHash := b.confirmationHash)
    ensures DraftAccepted(b)
  {
    hide IsId, IsReleaseId;
    PermutedDistinct(ItemKey, a.items, b.items);
    assert |multiset(a.items)| == |a.items| && |multiset(b.items)| == |b.items|;
    forall x ensures x in a.items <==> x in b.items {
      MemberOf(x, a.items);
      MemberOf(x, b.items);
    }
    assert forall i :: 0 <= i < |b.items| ==> b.items[i] in a.items;
    var r :| 0 <= r < |a.items| && a.items[r].Id() == a.rootReleaseId;
    assert a.items[r] in b.items;
  }

  lemma ConfirmationRecreated(sha: Sha, c: Confirmation)
    requires ValidConfirmation(sha, c)
    ensures CreateConfirmation(sha, c) == Some(c)
  {
    hide IsId, IsReleaseId, IsSha256, ItemSyntax, Sort;
    forall i, j | 0 <= i < j < |c.items| ensures Less(ItemKey(c.items[i]), ItemKey(c.items[j])) {}
    AscendingFixed(ItemBefore, ItemKey, c.items);
  }
}
