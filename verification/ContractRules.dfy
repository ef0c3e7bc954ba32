/**
 What the constructors of the contract values accept, spelled out: the alphabets, the
 parts of a version, and how the fields of each document have to fit together.
 */
module ContractRules {
  import opened Basics
  import opened Contracts
  import opened RetentionGraph
  import opened GraphRules
  import opened TextForms

  /* ---- Alphabets ---- */

  /** By code point: 0 to 9, A to Z, a to z. */
  predicate LetterOrDigit(c: char) {
    48 <= c as int <= 57 || 65 <= c as int <= 90 || 97 <= c as int <= 122
  }

  /** Every character is a letter, a digit or one of these. */
  predicate Over(s: string, marks: string) {
    forall i :: 0 <= i < |s| ==> LetterOrDigit(s[i]) || s[i] in marks
  }

  lemma IdExact(s: string)
    ensures IsId(s) <==> 1 <= |s| <= 128 && LetterOrDigit(s[0]) && Over(s, "._:-")
  {
  }

  lemma ProviderIdExact(s: string)
    ensures IsProviderId(s) <==> 1 <= |s| <= 256 && LetterOrDigit(s[0]) && Over(s, "._:/-")
  {
  }

  lemma LowerExact(c: char, d: char)
    requires 97 <= d as int <= 122
    ensures ToLower(c) == d <==> c == d || c as int == d as int - 32
  {
  }

  /** Any mixture of capital and small letters counts as the word. */
  predicate IsWord(s: string, word: string) {
    |s| == |word| && forall i :: 0 <= i < |s| ==> s[i] == word[i] || s[i] as int == word[i] as int - 32
  }

  lemma ReleaseIdExact(s: string)
    ensures IsReleaseId(s) <==> IsId(s) && !IsWord(s, "latest")
  {
    hide IsId, ToLower;
    var lower := seq(|s|, i requires 0 <= i < |s| => ToLower(s[i]));
    var word := "latest";
    forall i | 0 <= i < |s| && i < |word| ensures lower[i] == word[i] <==> s[i] == word[i] || s[i] as int == word[i] as int - 32 {
      LowerExact(s[i], word[i]);
    }
    assert lower == word <==> |s| == |word| && forall i :: 0 <= i < |s| ==> lower[i] == word[i];
  }

  lemma DigestTextExact(s: string)
    ensures IsSha256(s) <==> |s| == 64 && forall i :: 0 <= i < |s| ==> 48 <= s[i] as int <= 57 || 97 <= s[i] as int <= 102
  {
  }

  /** A text is one that is not all white space. */
  lemma SpaceExact(c: char)
    ensures IsSpace(c) <==>
              c as int in {0x9, 0xA, 0xB, 0xC, 0xD, 0x1C, 0x1D, 0x1E, 0x1F, 0x20, 0x85, 0xA0, 0x1680, 0x2000, 0x2001, 0x2002,
                           0x2003, 0x2004, 0x2005, 0x2006, 0x2007, 0x2008, 0x2009, 0x200A, 0x2028, 0x2029, 0x202F, 0x205F, 0x3000}
  {
  }

  /* ---- Versions ---- */

  /** A number without leading zeros. */
  predicate IsNumber(s: string) {
    s == "0" || (s != "" && s[0] != '0' && forall i :: 0 <= i < |s| ==> 48 <= s[i] as int <= 57)
  }

  predicate IsLabel(s: string) {
    s != "" && Over(s, "-")
  }

  function Dotted(labels: seq<string>): string {
    if labels == [] then "" else if |labels| == 1 then labels[0] else labels[0] + "." + Dotted(labels[1..])
  }

  function Tail(mark: string, labels: seq<string>): string {
    if labels == [] then "" else mark + Dotted(labels)
  }

  /** Three numbers, the labels of a pre-release and those of a build; no labels, no part. */
  ghost predicate HasParts(s: string, a: string, b: string, c: string, pre: seq<string>, build: seq<string>) {
    && s == a + "." + b + "." + c + Tail("-", pre) + Tail("+", build)
    && IsNumber(a) && IsNumber(b) && IsNumber(c)
    && (forall i :: 0 <= i < |pre| ==> IsLabel(pre[i])) && forall i :: 0 <= i < |build| ==> IsLabel(build[i])
  }

  lemma {:induction false} FirstIndex(x: string, c: char, y: string)
    requires c !in x
    ensures IndexOf(x + [c] + y, c) == |x| && IndexOf(x, c) == |x|
    decreases |x|
  {
    var s := x + [c] + y;
    if x != [] {
      assert s[1..] == x[1..] + [c] + y;
      FirstIndex(x[1..], c, y);
    }
  }

  lemma {:induction false} NoneBefore(s: string, c: char)
    ensures c !in s[..IndexOf(s, c)]
    decreases |s|
  {
    if s != [] && s[0] != c {
      NoneBefore(s[1..], c);
      assert s[..IndexOf(s, c)] == [s[0]] + s[1..][..IndexOf(s[1..], c)];
    }
  }

  lemma NumberExact(s: string)
    ensures IsNumericIdentifier(s) <==> IsNumber(s)
  {
  }

  lemma LabelExact(s: string)
    ensures IsLabel(s) <==> s != "" && forall i :: 0 <= i < |s| ==> IsAlphanumeric(s[i]) || s[i] == '-'
  {
  }

  lemma LabelPlain(s: string)
    requires IsLabel(s)
    ensures '.' !in s && '+' !in s
  {
  }

  lemma NumberPlain(s: string)
    requires IsNumber(s)
    ensures '.' !in s && '+' !in s && '-' !in s
  {
  }

  lemma {:induction false} DottedAccepted(labels: seq<string>)
    requires labels != [] && forall i :: 0 <= i < |labels| ==> IsLabel(labels[i])
    ensures IsDottedIdentifiers(Dotted(labels)) && '+' !in Dotted(labels)
    decreases |labels|
  {
    hide IsLabel;
    var s := Dotted(labels);
    LabelPlain(labels[0]);
    LabelExact(labels[0]);
    if |labels| == 1 {
      FirstIndex(s, '.', "");
    } else {
      var rest := Dotted(labels[1..]);
      assert s == labels[0] + ['.'] + rest;
      DottedAccepted(labels[1..]);
      FirstIndex(labels[0], '.', rest);
      assert s[|labels[0]| + 1..] == rest;
    }
  }

  lemma {:induction false} DottedSplit(s: string) returns (labels: seq<string>)
    requires IsDottedIdentifiers(s)
    ensures labels != [] && Dotted(labels) == s && forall i :: 0 <= i < |labels| ==> IsLabel(labels[i])
    decreases |s|
  {
    hide IsLabel;
    var n := IndexOf(s, '.');
    LabelExact(s[..n]);
    if n < |s| {
      var rest := DottedSplit(s[n + 1..]);
      labels := [s[..n]] + rest;
      assert labels[1..] == rest;
      assert s == s[..n] + "." + s[n + 1..];
    } else {
      labels := [s];
      assert s[..n] == s;
    }
  }

  lemma PartsAccepted(s: string, a: string, b: string, c: string, pre: seq<string>, build: seq<string>)
    requires HasParts(s, a, b, c, pre, build)
    ensures IsVersion(s)
  {
    hide IsNumber, IsLabel, IsDottedIdentifiers, Dotted, IsVersionCore;
    var core := a + "." + b + "." + c;
    var head := core + Tail("-", pre);
    CoreAccepted(a, b, c);
    assert '+' !in head by {
      if pre != [] { DottedAccepted(pre); }
    }
    if build != [] {
      DottedAccepted(build);
      assert s == head + ['+'] + Dotted(build);
      FirstIndex(head, '+', Dotted(build));
      assert s[|head| + 1..] == Dotted(build) && s[..|head|] == head;
    } else {
      assert s == head;
      FirstIndex(head, '+', "");
    }
    if pre != [] {
      DottedAccepted(pre);
      assert head == core + ['-'] + Dotted(pre);
      FirstIndex(core, '-', Dotted(pre));
      assert head[|core| + 1..] == Dotted(pre) && head[..|core|] == core;
    } else {
      assert head == core;
      FirstIndex(core, '-', "");
    }
  }

  lemma CorePlain(a: string, b: string, c: string)
    requires IsNumber(a) && IsNumber(b) && IsNumber(c)
    ensures var core := a + "." + b + "." + c; '+' !in core && '-' !in core
    ensures '.' !in a && '.' !in b && '.' !in c
  {
    hide IsNumber;
    NumberPlain(a);
    NumberPlain(b);
    NumberPlain(c);
  }

  lemma CoreAccepted(a: string, b: string, c: string)
    requires IsNumber(a) && IsNumber(b) && IsNumber(c)
    ensures IsVersionCore(a + "." + b + "." + c)
    ensures var core := a + "." + b + "." + c; '+' !in core && '-' !in core
  {
    hide IsNumber, IsNumericIdentifier, IndexOf;
    NumberExact(a);
    NumberExact(b);
    NumberExact(c);
    CorePlain(a, b, c);
    var core := a + "." + b + "." + c;
    var t := b + "." + c;
    assert core == a + ['.'] + t && t == b + ['.'] + c;
    FirstIndex(a, '.', t);
    FirstIndex(b, '.', c);
    assert core[|a| + 1..] == t && core[..|a|] == a && t[|b| + 1..] == c && t[..|b|] == b;
  }

  /** A text up to its first mark, and the rest. */
  lemma {:induction false} Cut(s: string, c: char)
    ensures var n := IndexOf(s, c);
            n < |s| ==> s == s[..n] + [c] + s[n + 1..]
    ensures IndexOf(s, c) == |s| ==> s[..IndexOf(s, c)] == s
  {
  }

  lemma CoreSplit(core: string) returns (a: string, b: string, c: string)
    requires IsVersionCore(core)
    ensures core == a + "." + b + "." + c && IsNumber(a) && IsNumber(b) && IsNumber(c)
  {
    hide IsNumber, IsNumericIdentifier, IndexOf;
    var i := IndexOf(core, '.');
    Cut(core, '.');
    var t := core[i + 1..];
    var j := IndexOf(t, '.');
    Cut(t, '.');
    a, b, c := core[..i], t[..j], t[j + 1..];
    NumberExact(a);
    NumberExact(b);
    NumberExact(c);
    assert a + "." + (b + "." + c) == a + "." + b + "." + c;
  }

  lemma TailSplit(s: string, mark: char) returns (front: string, labels: seq<string>)
    requires IndexOf(s, mark) < |s| ==> IsDottedIdentifiers(s[IndexOf(s, mark) + 1..])
    ensures front == s[..IndexOf(s, mark)] && s == front + Tail([mark], labels)
    ensures forall i :: 0 <= i < |labels| ==> IsLabel(labels[i])
  {
    hide IsLabel, IsDottedIdentifiers, Dotted;
    var n := IndexOf(s, mark);
    Cut(s, mark);
    front, labels := s[..n], [];
    if n < |s| {
      labels := DottedSplit(s[n + 1..]);
      assert s == front + ([mark] + s[n + 1..]);
    }
  }

  lemma VersionSplit(s: string)
    returns (a: string, b: string, c: string, pre: seq<string>, build: seq<string>)
    requires IsVersion(s)
    ensures HasParts(s, a, b, c, pre, build)
  {
    hide IsNumber, IsLabel, IsDottedIdentifiers, Dotted, IsNumericIdentifier, IsVersionCore, Tail;
    var head, core;
    head, build := TailSplit(s, '+');
    core, pre := TailSplit(head, '-');
    a, b, c := CoreSplit(core);
  }

  /** A version is three numbers with optional labels. */
  lemma VersionExact(s: string)
    ensures IsVersion(s) <==> exists a, b, c, pre, build :: HasParts(s, a, b, c, pre, build)
  {
    hide IsVersion, HasParts;
    if IsVersion(s) {
      var a, b, c, pre, build := VersionSplit(s);
    }
    if a, b, c, pre, build :| HasParts(s, a, b, c, pre, build) { PartsAccepted(s, a, b, c, pre, build); }
  }

  /* ---- Documents ---- */

  /** The five fields of an input reference. */
  predicate RefRules(r: InputRef) {
    && IsVersion(r.schemaVersion) && IsVersion(r.manifestSchemaVersion)
    && IsReleaseId(r.releaseId) && IsSha256(r.manifestHash.value)
  }

  predicate NoneTwice(xs: seq<string>) {
    forall i, j :: 0 <= i < |xs| && 0 <= j < |xs| && xs[i] == xs[j] ==> i == j
  }

  /** Each text comes before the next by code point. */
  ghost predicate Ascending(xs: seq<string>) {
    forall i, j :: 0 <= i < j < |xs| ==> Precedes(xs[i], xs[j])
  }

  predicate HashOrNone(d: Option<Digest>) {
    d.Some? ==> IsSha256(d.value.value)
  }

  /** What all observations have in common. */
  predicate CommonRules(o: Observation) {
    && IsId(o.id) && IsReleaseId(o.releaseId) && RefRules(o.inputRef) && o.inputRef.releaseId == o.releaseId
    && (o.supersedes.Some? ==> IsId(o.supersedes.value) && o.supersedes.value != o.id)
    && NoneTwice(o.reasons) && forall i :: 0 <= i < |o.reasons| ==> IsId(o.reasons[i])
  }

  /** A passed fetch has a receipt and artifacts, a failed one only reasons. */
  ghost predicate FetchRules(o: Observation)
    requires o.FetchObservation?
  {
    && IsText(o.endpoint) && HashOrNone(o.receiptHash) && HashOrNone(o.responseHash)
    && Ascending(o.artifactIds) && (forall i :: 0 <= i < |o.artifactIds| ==> IsProviderId(o.artifactIds[i]))
    && NoneTwice(o.cacheKeys) && (forall i :: 0 <= i < |o.cacheKeys| ==> IsText(o.cacheKeys[i]))
    && match o.result
       case Passed => o.reasons == [] && o.receiptHash.Some? && o.artifactIds != []
       case Failed => o.reasons != [] && o.receiptHash.None? && o.artifactIds == [] && o.cacheKeys == []
  }

  /** A passed status has a whole event, the first one building and without a predecessor; a failed one only reasons. */
  predicate StatusRules(o: Observation)
    requires o.StatusObservation?
  {
    match o.result
    case Passed =>
      && o.reasons == [] && o.status.Some?
      && o.eventId.Some? && IsProviderId(o.eventId.value)
      && o.eventHash.Some? && IsSha256(o.eventHash.value.value) && HashOrNone(o.previousHash)
      && o.sequence.Some? && 1 <= o.sequence.value <= 9_223_372_036_854_775_807
      && o.recordedAt.Some? && o.recordedAt.value <= o.observedAt
      && (o.sequence.value == 1 ==> o.previousHash.None? && o.status.value == Building)
      && (o.sequence.value > 1 ==> o.previousHash.Some?)
    case Failed =>
      && o.reasons != [] && o.status.None? && o.eventId.None? && o.eventHash.None? && o.previousHash.None?
      && o.sequence.None? && o.recordedAt.None?
  }

  /** An admission gives reasons exactly when it does not authorise. */
  predicate AdmissionRules(o: Observation)
    requires o.AdmissionObservation?
  {
    IsId(o.statusId) && match o.admission
    case Authorized => o.reasons == []
    case Unconfirmed => o.reasons != []
    case Denied => o.reasons != []
  }

  lemma DistinctExact(xs: seq<string>)
    ensures Distinct(xs) <==> NoneTwice(xs)
  {
    if Distinct(xs) {
      forall i, j | 0 <= i < |xs| && 0 <= j < |xs| && xs[i] == xs[j] ensures i == j {}
    }
  }

  lemma AscendingExact(xs: seq<string>)
    ensures StrictlySorted(xs) <==> Ascending(xs)
  {
    forall a, b ensures Less(a, b) <==> Precedes(a, b) { LessExact(a, b); }
    hide Less, Precedes;
  }

  /** The constructors accept exactly the observations that obey these rules. */
  lemma ObservationExact(o: Observation)
    ensures ValidObservation(o) <==>
              CommonRules(o) && match o
                                case FetchObservation(_, _, _, _, _, _, _, _, _, _, _, _, _) => FetchRules(o)
                                case StatusObservation(_, _, _, _, _, _, _, _, _, _, _, _, _) => StatusRules(o)
                                case AdmissionObservation(_, _, _, _, _, _, _, _) => AdmissionRules(o)
  {
    hide IsId, IsReleaseId, IsProviderId, IsSha256, IsText, IsVersion, Distinct, NoneTwice, StrictlySorted, Ascending;
    DistinctExact(o.reasons);
    if o.FetchObservation? {
      DistinctExact(o.cacheKeys);
      AscendingExact(o.artifactIds);
    }
  }

  /** Every check falls between the request and the confirmation, and the root is among the items. */
  ghost predicate ConfirmationRules(sha: Sha, c: Confirmation) {
    && c.schemaVersion == "0.1.0-draft" && IsId(c.confirmationId) && IsId(c.runId) && IsReleaseId(c.rootReleaseId)
    && IsSha256(c.receiptHash.value) && IsSha256(c.closureHash.value) && IsId(c.authorityId)
    && IsSha256(c.authorityContract.value) && IsSha256(c.confirmationHash.value)
    && c.requestedAt <= c.confirmedAt && c.confirmedAt < c.expiresAt
    && (exists i :: 0 <= i < |c.items| && c.items[i].inputRef.releaseId == c.rootReleaseId)
    && (forall i, j :: 0 <= i < j < |c.items| ==> Precedes(c.items[i].inputRef.releaseId, c.items[j].inputRef.releaseId))
    && (forall i :: 0 <= i < |c.items| ==> ItemRules(c.items[i]) && c.requestedAt <= c.items[i].checkedAt <= c.confirmedAt)
    && sha(ConfirmationIdentity(c.(confirmationHash := Digest("")))) == c.confirmationHash
  }

  predicate ItemRules(i: ConfirmationItem) {
    && RefRules(i.inputRef) && IsId(i.statusId) && IsProviderId(i.eventId) && IsSha256(i.eventHash.value)
    && 1 <= i.sequence <= 9_223_372_036_854_775_807 && IsSha256(i.responseHash.value)
  }

  lemma ConfirmationExact(sha: Sha, c: Confirmation)
    ensures ValidConfirmation(sha, c) <==> ConfirmationRules(sha, c)
  {
    forall a, b ensures Less(a, b) <==> Precedes(a, b) { LessExact(a, b); }
    hide IsId, IsReleaseId, IsProviderId, IsSha256, IsVersion, Less, Precedes;
    forall i ensures ItemSyntax(i) <==> ItemRules(i) {}
    hide ItemSyntax, ItemRules;
  }

  predicate ArtifactRules(a: Artifact) {
    IsProviderId(a.artifactId) && IsId(a.itemType) && IsSha256(a.hash.value)
  }

  /** At least one artifact, ordered by identifier. */
  ghost predicate ArtifactsRules(artifacts: seq<Artifact>) {
    && artifacts != [] && (forall i :: 0 <= i < |artifacts| ==> ArtifactRules(artifacts[i]))
    && forall i, j :: 0 <= i < j < |artifacts| ==> Precedes(artifacts[i].artifactId, artifacts[j].artifactId)
  }

  lemma ArtifactsExact(artifacts: seq<Artifact>)
    ensures ArtifactsNormal(artifacts) <==> ArtifactsRules(artifacts)
  {
    forall a, b ensures Less(a, b) <==> Precedes(a, b) { LessExact(a, b); }
    hide IsId, IsProviderId, IsSha256, Less, Precedes;
  }

  lemma ReceiptExact(sha: Sha, r: Receipt)
    ensures ValidReceipt(sha, r) <==>
              && r.schemaVersion == "0.1.0-draft" && IsVersion(r.contractVersion) && RefRules(r.inputRef)
              && ArtifactsRules(r.artifacts)
              && r.receiptHash == sha(ReceiptIdentity(r.schemaVersion, r.contractVersion, r.inputRef, r.artifacts))
  {
    hide IsVersion, IsReleaseId, IsSha256, ArtifactsNormal, ArtifactsRules;
    ArtifactsExact(r.artifacts);
  }

  /** A release with its artifacts and, in order and without itself, what it depends on. */
  ghost predicate NodeRules(n: Node) {
    && RefRules(n.inputRef) && IsSha256(n.manifestDocumentHash.value) && n.manifestSize >= 1
    && ArtifactsRules(n.artifacts) && Ascending(n.dependencies) && n.inputRef.releaseId !in n.dependencies
  }

  lemma {:induction false} NodeExact(n: Node)
    ensures ValidNode(n) <==> NodeRules(n)
  {
    hide IsVersion, IsReleaseId, IsSha256, ArtifactsNormal, ArtifactsRules, StrictlySorted, Ascending;
    ArtifactsExact(n.artifacts);
    AscendingExact(n.dependencies);
  }

  /** Releases ordered by identifier, the root among them, under the hash of the whole. */
  ghost predicate ClosureForm(sha: Sha, c: Closure) {
    && c.schemaVersion == "0.1.0-draft"
    && (forall i :: 0 <= i < |c.releases| ==> NodeRules(c.releases[i]))
    && (forall i, j :: 0 <= i < j < |c.releases| ==>
          Precedes(c.releases[i].inputRef.releaseId, c.releases[j].inputRef.releaseId))
    && (exists i :: 0 <= i < |c.releases| && c.releases[i].inputRef == c.root)
    && c.closureHash == sha(ClosureIdentity(c.schemaVersion, c.root, c.releases))
  }

  lemma ClosureFormExact(sha: Sha, c: Closure)
    ensures ClosureShape(sha, c) <==> ClosureForm(sha, c)
  {
    forall n ensures ValidNode(n) <==> NodeRules(n) { NodeExact(n); }
    hide ValidNode, NodeRules, Precedes, NodesNormal;
    NormalExact(c.releases);
  }

  /** A closure is accepted exactly when its releases also grow from the root. */
  lemma ClosureExact(sha: Sha, c: Closure)
    ensures ValidClosure(sha, c) <==> ClosureForm(sha, c) && exists order :: GrowsFrom(c.releases, c.root.releaseId, order)
  {
    ClosureFormExact(sha, c);
    assert ClosureShape(sha, c) ==> NodesNormal(c.releases);
    hide ClosureShape, NodeRules, Precedes, Accepted, GrowsFrom, NodesNormal, GraphOf;
    if ClosureShape(sha, c) {
      Unrepeated(c.releases);
      GraphExact(c.releases, c.root.releaseId);
    }
  }

  lemma {:induction false} NormalExact(nodes: seq<Node>)
    ensures NodesNormal(nodes) <==>
              nodes != [] && forall i, j :: 0 <= i < j < |nodes| ==>
                Precedes(nodes[i].inputRef.releaseId, nodes[j].inputRef.releaseId)
  {
    forall a, b ensures Less(a, b) <==> Precedes(a, b) { LessExact(a, b); }
    hide Less, Precedes;
  }

  lemma Unrepeated(nodes: seq<Node>)
    requires NodesNormal(nodes)
    ensures NodesDistinct(nodes)
  {
    forall i, j | 0 <= i < j < |nodes| ensures nodes[i].Id() != nodes[j].Id() { LessIrreflexive(nodes[i].Id()); }
  }
}
