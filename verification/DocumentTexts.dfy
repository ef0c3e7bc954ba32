/**
 The stored texts of receipts and closures. Their verifiers never build a contract
 value: they parse the text, hash it with and without its own hash, and compare
 what they read with the index rows. Under the hash of a stored document only that
 document's own text passes, and then exactly when the verifiers on values accept.
 */
module DocumentTexts {
  import opened Basics
  import opened Contracts
  import opened CanonicalJson
  import opened ProviderCanonical
  import opened UtcTime
  import opened ContractCodec
  import opened RetentionGraph
  import opened RetentionIndex
  import opened Ledgers
  import opened Databases
  import opened Verifiers

  /* ---- Reading fields of a parsed document ---- */

  /** A member that has to be there. */
  function Get(v: Json, name: string): Option<Json> {
    if v.Obj? && name in v.members then Some(v.members[name]) else None
  }

  function TextAt(v: Json, name: string): Option<string> {
    var t :- Get(v, name);
    TextIn(t)
  }

  function CountIn(v: Json): Option<nat> {
    if v.Int? && v.n >= 0 then Some(v.n) else None
  }

  function CountAt(v: Json, name: string): Option<nat> {
    var n :- Get(v, name);
    CountIn(n)
  }

  /** The value of a hash object, whatever else the object holds. */
  function HashAt(v: Json, name: string): Option<Digest> {
    var holder :- Get(v, name);
    var value :- TextAt(holder, "value");
    Some(Digest(value))
  }

  function ReadAll<T>(read: Json -> Option<T>, vs: seq<Json>): Option<seq<T>> {
    if vs == [] then Some([])
    else
      var first :- read(vs[0]);
      var rest :- ReadAll(read, vs[1..]);
      Some([first] + rest)
  }

  function ListAt<T>(read: Json -> Option<T>, v: Json, name: string): Option<seq<T>> {
    var list :- Get(v, name);
    if list.Arr? then ReadAll(read, list.items) else None
  }

  function RefRead(v: Json): Option<InputRef> {
    var holder :- Get(v, "manifest_hash");
    var algorithm :- Get(holder, "algorithm");
    if algorithm != Str("sha256") then None
    else
      var release :- TextAt(v, "dataset_release_id");
      var schema :- TextAt(v, "schema_version");
      var time :- Get(v, "knowledge_cutoff");
      var cutoff :- TimeIn(time);
      var manifestSchema :- TextAt(v, "release_manifest_schema_version");
      var hash :- HashAt(v, "manifest_hash");
      Some(InputRef(schema, release, cutoff, manifestSchema, hash))
  }

  function ArtifactRead(v: Json): Option<Artifact> {
    var id :- TextAt(v, "artifact_id");
    var itemType :- TextAt(v, "item_type");
    var hash :- HashAt(v, "artifact_hash");
    var size :- CountAt(v, "size_bytes");
    var records :- Get(v, "record_count");
    if records.Null? then Some(Artifact(id, itemType, hash, size, None))
    else
      var count :- CountIn(records);
      Some(Artifact(id, itemType, hash, size, Some(count)))
  }

  function NodeRead(v: Json): Option<Node> {
    var refValue :- Get(v, "strategy_input_ref");
    var ref :- RefRead(refValue);
    var hash :- HashAt(v, "manifest_document_hash");
    var size :- CountAt(v, "manifest_size_bytes");
    var artifacts :- ListAt(ArtifactRead, v, "artifacts");
    var dependencies :- ListAt(TextIn, v, "dependency_release_ids");
    Some(Node(ref, hash, size, artifacts, dependencies))
  }

  function ReceiptRead(v: Json, h: Digest): Option<Receipt> {
    var schema :- TextAt(v, "schema_version");
    var contract :- TextAt(v, "consumer_contract_version");
    var refValue :- Get(v, "strategy_input_ref");
    var ref :- RefRead(refValue);
    var artifacts :- ListAt(ArtifactRead, v, "artifacts");
    Some(Receipt(schema, contract, ref, artifacts, h))
  }

  function ClosureRead(v: Json, k: Digest): Option<Closure> {
    var schema :- TextAt(v, "schema_version");
    var refValue :- Get(v, "root_strategy_input_ref");
    var root :- RefRead(refValue);
    var releases :- ListAt(NodeRead, v, "releases");
    Some(Closure(schema, root, releases, k))
  }

  /* ---- The verifiers on texts ---- */

  /** The object that a canonical text is the text of. */
  function CanonicalObject(text: string): Option<Json> {
    var v :- Parse(text);
    if v.Obj? && CanonicalText(v) == Some(text) then Some(v) else None
  }

  /** The object names its hash, and without it it has that hash. */
  predicate SealedBy(hash: TextSha, v: Json, name: string, h: Digest)
    requires v.Obj?
  {
    Get(v, name) == Some(HashJson(h)) && hash(Print(Obj(v.members - {name}))) == h.value
  }

  predicate ReceiptTextVerifies(hash: TextSha, db: Database, h: Digest, text: string) {
    && h in db.documents.receipts
    && hash(text) == db.documents.receipts[h].documentHash.value
    && var v := CanonicalObject(text);
       && v.Some? && SealedBy(hash, v.value, "receipt_hash", h)
       && var r := ReceiptRead(v.value, h);
          r.Some? && ReceiptRowsMatch(db, h, r.value)
  }

  predicate ClosureTextVerifies(hash: TextSha, db: Database, k: Digest, text: string) {
    && k in db.documents.closures
    && hash(text) == db.documents.closures[k].documentHash.value
    && var v := CanonicalObject(text);
       && v.Some? && SealedBy(hash, v.value, "closure_hash", k)
       && var c := ClosureRead(v.value, k);
          c.Some? && ClosureRowsMatch(db, k, c.value)
  }

  /* ---- Printing ---- */

  const ARTIFACT_NAMES: seq<string> := ["artifact_id", "item_type", "artifact_hash", "size_bytes", "record_count"]
  const NODE_NAMES: seq<string> :=
    ["strategy_input_ref", "manifest_document_hash", "manifest_size_bytes", "artifacts", "dependency_release_ids"]
  const RECEIPT_NAMES: seq<string> := ["schema_version", "consumer_contract_version", "strategy_input_ref", "artifacts"]
  const CLOSURE_NAMES: seq<string> := ["schema_version", "root_strategy_input_ref", "releases"]

  lemma DocumentNames()
    ensures Distinct(ARTIFACT_NAMES) && Distinct(NODE_NAMES) && Distinct(RECEIPT_NAMES) && Distinct(CLOSURE_NAMES)
  {
  }

  function ArtifactFields(a: Artifact): (f: seq<Json>)
    ensures |f| == 5
  {
    [Str(a.artifactId), Str(a.itemType), HashJson(a.hash), Int(a.sizeBytes),
     if a.recordCount.Some? then Int(a.recordCount.value) else Null]
  }

  function ArtifactJson(a: Artifact): Json {
    DocumentNames();
    ObjectOf(ARTIFACT_NAMES, ArtifactFields(a))
  }

  function ArtifactsJson(artifacts: seq<Artifact>): Json {
    Arr(seq(|artifacts|, i requires 0 <= i < |artifacts| => ArtifactJson(artifacts[i])))
  }

  function NodeFields(n: Node): (f: seq<Json>)
    requires InRange(n.inputRef.knowledgeCutoff)
    ensures |f| == 5
  {
    [RefJson(n.inputRef), HashJson(n.manifestDocumentHash), Int(n.manifestSize), ArtifactsJson(n.artifacts),
     TextsJson(n.dependencies)]
  }

  function NodeJson(n: Node): Json
    requires InRange(n.inputRef.knowledgeCutoff)
  {
    DocumentNames();
    ObjectOf(NODE_NAMES, NodeFields(n))
  }

  predicate NodesInRange(nodes: seq<Node>) {
    forall i :: 0 <= i < |nodes| ==> InRange(nodes[i].inputRef.knowledgeCutoff)
  }

  function NodesJson(nodes: seq<Node>): Json
    requires NodesInRange(nodes)
  {
    Arr(seq(|nodes|, i requires 0 <= i < |nodes| => NodeJson(nodes[i])))
  }

  function ReceiptFields(r: Receipt): (f: seq<Json>)
    requires InRange(r.inputRef.knowledgeCutoff)
    ensures |f| == 4
  {
    [Str(r.schemaVersion), Str(r.contractVersion), RefJson(r.inputRef), ArtifactsJson(r.artifacts)]
  }

  predicate ClosureInRange(c: Closure) {
    InRange(c.root.knowledgeCutoff) && NodesInRange(c.releases)
  }

  function ClosureFields(c: Closure): (f: seq<Json>)
    requires ClosureInRange(c)
    ensures |f| == 3
  {
    [Str(c.schemaVersion), RefJson(c.root), NodesJson(c.releases)]
  }

  /** What the receipt's hash covers. */
  function ReceiptIdentityJson(r: Receipt): Json
    requires InRange(r.inputRef.knowledgeCutoff)
  {
    DocumentNames();
    ObjectOf(RECEIPT_NAMES, ReceiptFields(r))
  }

  function ClosureIdentityJson(c: Closure): Json
    requires ClosureInRange(c)
  {
    DocumentNames();
    ObjectOf(CLOSURE_NAMES, ClosureFields(c))
  }

  function ReceiptTextOf(r: Receipt): string
    requires InRange(r.inputRef.knowledgeCutoff)
  {
    Print(Obj(ReceiptIdentityJson(r).members["receipt_hash" := HashJson(r.receiptHash)]))
  }

  function ClosureTextOf(c: Closure): string
    requires ClosureInRange(c)
  {
    Print(Obj(ClosureIdentityJson(c).members["closure_hash" := HashJson(c.closureHash)]))
  }

  /* ---- What was printed is read ---- */

  lemma GetField(names: seq<string>, values: seq<Json>, i: nat)
    requires Distinct(names) && |names| == |values| && i < |names|
    ensures Get(ObjectOf(names, values), names[i]) == Some(values[i])
  {
    assert names[i] in names;
    assert IndexIn(names, names[i]) == i;
  }

  lemma HashRead(v: Json, name: string, d: Digest)
    requires Get(v, name) == Some(HashJson(d))
    ensures HashAt(v, name) == Some(d) && Get(HashJson(d), "algorithm") == Some(Str("sha256"))
  {
    var values := [Str("sha256"), Str(d.value)];
    GetField(HASH_NAMES, values, 0);
    GetField(HASH_NAMES, values, 1);
    assert HASH_NAMES[0] == "algorithm" && HASH_NAMES[1] == "value";
  }

  lemma {:induction false} AllRead<T>(read: Json -> Option<T>, vs: seq<Json>, xs: seq<T>)
    requires |vs| == |xs| && forall i :: 0 <= i < |vs| ==> read(vs[i]) == Some(xs[i])
    ensures ReadAll(read, vs) == Some(xs)
    decreases |vs|
  {
    if vs != [] {
      AllRead(read, vs[1..], xs[1..]);
      assert xs == [xs[0]] + xs[1..];
    }
  }

  lemma RefReadBack(r: InputRef)
    requires InRange(r.knowledgeCutoff)
    ensures RefRead(RefJson(r)) == Some(r)
  {
    hide TimeIn, TimeJson, InRange, HashJson, ObjectOf, HashAt;
    var f := [Str(r.schemaVersion), Str(r.releaseId), TimeJson(r.knowledgeCutoff),
              Str(r.manifestSchemaVersion), HashJson(r.manifestHash)];
    RefNames();
    RefFieldNames();
    GetField(REF_NAMES, f, 0);
    GetField(REF_NAMES, f, 1);
    GetField(REF_NAMES, f, 2);
    GetField(REF_NAMES, f, 3);
    GetField(REF_NAMES, f, 4);
    HashRead(RefJson(r), "manifest_hash", r.manifestHash);
    TimeExact(f[2], r.knowledgeCutoff);
  }

  lemma RefFieldNames()
    ensures |REF_NAMES| == 5 && REF_NAMES[0] == "schema_version" && REF_NAMES[1] == "dataset_release_id"
    ensures REF_NAMES[2] == "knowledge_cutoff" && REF_NAMES[3] == "release_manifest_schema_version"
    ensures REF_NAMES[4] == "manifest_hash"
  {
  }

  lemma ArtifactReadBack(a: Artifact)
    ensures ArtifactRead(ArtifactJson(a)) == Some(a)
  {
    hide HashJson, ObjectOf, HashAt, Distinct;
    var f := ArtifactFields(a);
    DocumentNames();
    GetField(ARTIFACT_NAMES, f, 0);
    GetField(ARTIFACT_NAMES, f, 1);
    GetField(ARTIFACT_NAMES, f, 2);
    GetField(ARTIFACT_NAMES, f, 3);
    GetField(ARTIFACT_NAMES, f, 4);
    HashRead(ArtifactJson(a), "artifact_hash", a.hash);
  }

  lemma ArtifactsReadBack(v: Json, name: string, artifacts: seq<Artifact>)
    requires Get(v, name) == Some(ArtifactsJson(artifacts))
    ensures ListAt(ArtifactRead, v, name) == Some(artifacts)
  {
    hide ArtifactJson, ArtifactRead;
    var vs := ArtifactsJson(artifacts).items;
    forall i | 0 <= i < |vs| ensures ArtifactRead(vs[i]) == Some(artifacts[i]) { ArtifactReadBack(artifacts[i]); }
    AllRead(ArtifactRead, vs, artifacts);
  }

  lemma NodeReadBack(n: Node)
    requires InRange(n.inputRef.knowledgeCutoff)
    ensures NodeRead(NodeJson(n)) == Some(n)
  {
    hide RefJson, RefRead, HashJson, ObjectOf, HashAt, ListAt, ArtifactsJson, InRange, Distinct;
    var f := NodeFields(n);
    var v := NodeJson(n);
    DocumentNames();
    GetField(NODE_NAMES, f, 0);
    GetField(NODE_NAMES, f, 1);
    GetField(NODE_NAMES, f, 2);
    GetField(NODE_NAMES, f, 3);
    GetField(NODE_NAMES, f, 4);
    RefReadBack(n.inputRef);
    HashRead(v, "manifest_document_hash", n.manifestDocumentHash);
    ArtifactsReadBack(v, "artifacts", n.artifacts);
    DependenciesReadBack(v, n.dependencies);
  }

  lemma DependenciesReadBack(v: Json, dependencies: seq<Id>)
    requires Get(v, "dependency_release_ids") == Some(TextsJson(dependencies))
    ensures ListAt(TextIn, v, "dependency_release_ids") == Some(dependencies)
  {
    AllRead(TextIn, TextsJson(dependencies).items, dependencies);
  }

  lemma NodesReadBack(v: Json, nodes: seq<Node>)
    requires NodesInRange(nodes) && Get(v, "releases") == Some(NodesJson(nodes))
    ensures ListAt(NodeRead, v, "releases") == Some(nodes)
  {
    hide NodeJson, NodeRead, InRange;
    var vs := NodesJson(nodes).items;
    forall i | 0 <= i < |vs| ensures NodeRead(vs[i]) == Some(nodes[i]) { NodeReadBack(nodes[i]); }
    AllRead(NodeRead, vs, nodes);
  }

  /** Another member does not disturb the reading of a field. */
  lemma GetKept(v: Json, name: string, x: Json, other: string)
    requires v.Obj? && other != name
    ensures Get(Obj(v.members[name := x]), other) == Get(v, other)
  {
  }

  lemma ReceiptReadBack(r: Receipt)
    requires InRange(r.inputRef.knowledgeCutoff)
    ensures ReceiptIdentityJson(r).Obj? && "receipt_hash" !in ReceiptIdentityJson(r).members
    ensures ReceiptRead(Obj(ReceiptIdentityJson(r).members["receipt_hash" := HashJson(r.receiptHash)]), r.receiptHash) == Some(r)
  {
    DocumentNames();
    assert "receipt_hash" !in RECEIPT_NAMES;
    assert ReceiptIdentityJson(r).Obj? && "receipt_hash" !in ReceiptIdentityJson(r).members;
    hide RefJson, RefRead, HashJson, ObjectOf, ListAt, ArtifactsJson, InRange, Distinct, Get;
    var f, identity := ReceiptFields(r), ReceiptIdentityJson(r);
    var v := Obj(identity.members["receipt_hash" := HashJson(r.receiptHash)]);
    forall i | 0 <= i < 4 ensures Get(v, RECEIPT_NAMES[i]) == Some(f[i]) {
      GetField(RECEIPT_NAMES, f, i);
      GetKept(identity, "receipt_hash", HashJson(r.receiptHash), RECEIPT_NAMES[i]);
    }
    assert RECEIPT_NAMES[0] == "schema_version" && RECEIPT_NAMES[1] == "consumer_contract_version";
    assert RECEIPT_NAMES[2] == "strategy_input_ref" && RECEIPT_NAMES[3] == "artifacts";
    RefReadBack(r.inputRef);
    ArtifactsReadBack(v, "artifacts", r.artifacts);
  }

  lemma ClosureReadBack(c: Closure)
    requires ClosureInRange(c)
    ensures ClosureIdentityJson(c).Obj? && "closure_hash" !in ClosureIdentityJson(c).members
    ensures ClosureRead(Obj(ClosureIdentityJson(c).members["closure_hash" := HashJson(c.closureHash)]), c.closureHash) == Some(c)
  {
    DocumentNames();
    assert "closure_hash" !in CLOSURE_NAMES;
    assert ClosureIdentityJson(c).Obj? && "closure_hash" !in ClosureIdentityJson(c).members;
    hide RefJson, RefRead, HashJson, ObjectOf, ListAt, NodesJson, InRange, Distinct, Get, NodesInRange;
    var f, identity := ClosureFields(c), ClosureIdentityJson(c);
    var v := Obj(identity.members["closure_hash" := HashJson(c.closureHash)]);
    forall i | 0 <= i < 3 ensures Get(v, CLOSURE_NAMES[i]) == Some(f[i]) {
      GetField(CLOSURE_NAMES, f, i);
      GetKept(identity, "closure_hash", HashJson(c.closureHash), CLOSURE_NAMES[i]);
    }
    assert CLOSURE_NAMES[0] == "schema_version" && CLOSURE_NAMES[1] == "root_strategy_input_ref";
    assert CLOSURE_NAMES[2] == "releases";
    RefReadBack(c.root);
    NodesReadBack(v, c.releases);
  }

  /* ---- Printed documents are canonical ---- */

  lemma FloatFreeObject(names: seq<string>, values: seq<Json>)
    requires Distinct(names) && |names| == |values| && forall i :: 0 <= i < |values| ==> FloatFree(values[i])
    ensures FloatFree(ObjectOf(names, values))
  {
  }

  lemma HashFloatFree(d: Digest)
    ensures FloatFree(HashJson(d))
  {
    FloatFreeObject(HASH_NAMES, [Str("sha256"), Str(d.value)]);
  }

  lemma RefFloatFree(r: InputRef)
    requires InRange(r.knowledgeCutoff)
    ensures FloatFree(RefJson(r))
  {
    hide HashJson, InRange, FormatUtc, ObjectOf;
    RefNames();
    HashFloatFree(r.manifestHash);
    FloatFreeObject(REF_NAMES, [Str(r.schemaVersion), Str(r.releaseId), TimeJson(r.knowledgeCutoff),
                                Str(r.manifestSchemaVersion), HashJson(r.manifestHash)]);
  }

  lemma ArtifactsFloatFree(artifacts: seq<Artifact>)
    ensures FloatFree(ArtifactsJson(artifacts))
  {
    hide HashJson, ObjectOf;
    DocumentNames();
    forall i | 0 <= i < |artifacts| ensures FloatFree(ArtifactJson(artifacts[i])) {
      HashFloatFree(artifacts[i].hash);
      FloatFreeObject(ARTIFACT_NAMES, ArtifactFields(artifacts[i]));
    }
  }

  lemma NodesFloatFree(nodes: seq<Node>)
    requires NodesInRange(nodes)
    ensures FloatFree(NodesJson(nodes))
  {
    hide HashJson, ObjectOf, RefJson, ArtifactsJson, InRange;
    DocumentNames();
    forall i | 0 <= i < |nodes| ensures FloatFree(NodeJson(nodes[i])) {
      RefFloatFree(nodes[i].inputRef);
      HashFloatFree(nodes[i].manifestDocumentHash);
      ArtifactsFloatFree(nodes[i].artifacts);
      FloatFreeObject(NODE_NAMES, NodeFields(nodes[i]));
    }
  }

  lemma ReceiptFloatFree(r: Receipt)
    requires InRange(r.inputRef.knowledgeCutoff)
    ensures FloatFree(ReceiptIdentityJson(r))
  {
    hide RefJson, ArtifactsJson, InRange, ObjectOf;
    DocumentNames();
    RefFloatFree(r.inputRef);
    ArtifactsFloatFree(r.artifacts);
    FloatFreeObject(RECEIPT_NAMES, ReceiptFields(r));
  }

  lemma ClosureFloatFree(c: Closure)
    requires ClosureInRange(c)
    ensures FloatFree(ClosureIdentityJson(c))
  {
    hide RefJson, NodesJson, InRange, ObjectOf;
    DocumentNames();
    RefFloatFree(c.root);
    NodesFloatFree(c.releases);
    FloatFreeObject(CLOSURE_NAMES, ClosureFields(c));
  }

  lemma FloatFreeSealed(v: Json, name: string, h: Digest)
    requires v.Obj? && FloatFree(v)
    ensures FloatFree(Obj(v.members[name := HashJson(h)]))
  {
    HashFloatFree(h);
  }

  lemma {:induction false} CanonicalPrinted(v: Json)
    requires v.Obj? && FloatFree(v)
    ensures CanonicalObject(Print(v)) == Some(v)
  {
    ParsePrinted(v);
  }

  /* ---- Under a document's hash only its own text passes ---- */

  /** An object sealed by the hash of an identity is that identity with the hash written into it. */
  lemma {:induction false} SealPins(hash: TextSha, v: Json, name: string, h: Digest, identity: Json)
    requires Injective(hash) && v.Obj? && identity.Obj? && name !in identity.members && hash(Print(identity)) == h.value
    ensures SealedBy(hash, v, name, h) <==> v == Obj(identity.members[name := HashJson(h)])
  {
    hide Print;
    if SealedBy(hash, v, name, h) {
      assert Print(Obj(v.members - {name})) == Print(identity);
      PrintInjective(Obj(v.members - {name}), identity);
      assert v.members == identity.members[name := HashJson(h)];
    }
    if v == Obj(identity.members[name := HashJson(h)]) {
      assert v.members - {name} == identity.members;
    }
  }

  /** The hashes of the receipt as a document are those of its texts. */
  predicate ReceiptHashed(hash: TextSha, sha: Sha, r: Receipt)
    requires InRange(r.inputRef.knowledgeCutoff)
  {
    && sha(ReceiptText(r)) == Digest(hash(ReceiptTextOf(r)))
    && sha(ReceiptPayload(r)) == Digest(hash(Print(ReceiptIdentityJson(r))))
  }

  predicate ClosureHashed(hash: TextSha, sha: Sha, c: Closure)
    requires ClosureInRange(c)
  {
    && sha(ClosureText(c)) == Digest(hash(ClosureTextOf(c)))
    && sha(ClosurePayload(c)) == Digest(hash(Print(ClosureIdentityJson(c))))
  }

  /**
   Under the hash of a stored receipt the verifier accepts a text exactly when it is
   that receipt's own and the verifier on values accepts the row.
   */
  lemma ReceiptTextExact(hash: TextSha, sha: Sha, db: Database, h: Digest, text: string)
    requires Injective(hash) && h in db.documents.receipts
    requires var r := db.documents.receipts[h].document;
             && InRange(r.inputRef.knowledgeCutoff) && ReceiptHashed(hash, sha, r)
             && r.receiptHash == h && sha(ReceiptPayload(r)) == h
    ensures var r := db.documents.receipts[h].document;
            ReceiptTextVerifies(hash, db, h, text) <==> text == ReceiptTextOf(r) && ReceiptVerifies(sha, db, h)
  {
    hide Injective, InRange, Parse, Print, FloatFree, ObjectOf, HashJson, ReceiptFields, ReceiptRead, ReceiptRowsMatch,
         SealedBy, Distinct;
    var r := db.documents.receipts[h].document;
    var identity := ReceiptIdentityJson(r);
    ReceiptReadBack(r);
    var v := Obj(identity.members["receipt_hash" := HashJson(h)]);
    ReceiptFloatFree(r);
    FloatFreeSealed(identity, "receipt_hash", h);
    CanonicalPrinted(v);
    if CanonicalObject(text).Some? { SealPins(hash, CanonicalObject(text).value, "receipt_hash", h, identity); }
  }

  /** The same for closures. */
  lemma ClosureTextExact(hash: TextSha, sha: Sha, db: Database, k: Digest, text: string)
    requires Injective(hash) && k in db.documents.closures
    requires var c := db.documents.closures[k].document;
             && ClosureInRange(c) && ClosureHashed(hash, sha, c)
             && c.closureHash == k && sha(ClosurePayload(c)) == k
    ensures var c := db.documents.closures[k].document;
            ClosureTextVerifies(hash, db, k, text) <==> text == ClosureTextOf(c) && ClosureVerifies(sha, db, k)
  {
    hide Injective, InRange, Parse, Print, FloatFree, ObjectOf, HashJson, ClosureFields, ClosureRead, ClosureRowsMatch,
         SealedBy, Distinct, ClosureInRange;
    var c := db.documents.closures[k].document;
    var identity := ClosureIdentityJson(c);
    ClosureReadBack(c);
    var v := Obj(identity.members["closure_hash" := HashJson(k)]);
    ClosureFloatFree(c);
    FloatFreeSealed(identity, "closure_hash", k);
    CanonicalPrinted(v);
    if CanonicalObject(text).Some? { SealPins(hash, CanonicalObject(text).value, "closure_hash", k, identity); }
  }

  /* ---- The stored texts of a coherent ledger ---- */

  /** Of all texts the verifier takes exactly the stored receipt's own. */
  lemma StoredReceiptText(cfg: Config, l: Ledger, hash: TextSha, h: Digest, text: string)
    requires MaterialCoherent(cfg, l) && h in l.receipts && Injective(hash)
    requires var r := l.receipts[h].receipt; InRange(r.inputRef.knowledgeCutoff) && ReceiptHashed(hash, cfg.sha, r)
    ensures ReceiptTextVerifies(hash, Tables(cfg, l), h, text) <==> text == ReceiptTextOf(l.receipts[h].receipt)
  {
    hide Injective, InRange, Tables, ReceiptTextVerifies, ReceiptTextOf, ReceiptVerifies, ReceiptHashed, ClosureCoherent,
         RootMatches, ArtifactsNormal;
    ReceiptTables(cfg, l, h);
    ReceiptAccepted(cfg, l, h);
    assert ReceiptCoherent(cfg, l, h, l.receipts[h]);
    ReceiptTextExact(hash, cfg.sha, Tables(cfg, l), h, text);
  }

  lemma StoredClosureText(cfg: Config, l: Ledger, hash: TextSha, k: Digest, text: string)
    requires MaterialCoherent(cfg, l) && k in l.closures && Injective(hash)
    requires var c := l.closures[k].closure; ClosureInRange(c) && ClosureHashed(hash, cfg.sha, c)
    ensures ClosureTextVerifies(hash, Tables(cfg, l), k, text) <==> text == ClosureTextOf(l.closures[k].closure)
  {
    hide Injective, ClosureInRange, Tables, ClosureTextVerifies, ClosureTextOf, ClosureVerifies, ClosureHashed,
         ReceiptCoherent, RetentionGraph.Accepted, ValidNode, NodesNormal, NodeStored;
    ClosureTables(cfg, l, k);
    ClosureAccepted(cfg, l, k);
    assert ClosureCoherent(cfg, l, k, l.closures[k].closure);
    ClosureTextExact(hash, cfg.sha, Tables(cfg, l), k, text);
  }
}
