/**
 * The rejection-remark classifier: a remark is put in one of a fixed set of
 * categories by case-insensitive keyword search, with a fixed priority.
 */
module RejectionClassifier {
  import opened Wrappers
  import opened Text

  /** The categories the classifier can answer with. */
  datatype Category = NoRemark | FakeDocument | NotCovered | PolicyExpired | Unknown | Error

  /** The string the Python code returns for each category. */
  function Label(c: Category): string
  {
    match c
    case NoRemark => "No_Remark"
    case FakeDocument => "Fake_document"
    case NotCovered => "Not_Covered"
    case PolicyExpired => "Policy_expired"
    case Unknown => "Unknown"
    case Error => "Error"
  }

  /** Different categories are reported by different strings. */
  lemma LabelsDistinct(a: Category, b: Category)
    ensures Label(a) == Label(b) <==> a == b
  {
  }

  const FakeDocumentKey := "fake_document"
  const NotCoveredKey := "not_covered"
  const PolicyExpiredKey := "policy_expired"

  /** `REJECTION_REASONS_MAP`, in its insertion (iteration) order. */
  const ReasonsMap: seq<(string, Category)> :=
    [(FakeDocumentKey, FakeDocument), (NotCoveredKey, NotCovered), (PolicyExpiredKey, PolicyExpired)]

  /**
   * `contains_rejection_reason`: the remark is a non-empty string and the
   * lower-cased reason occurs in the lower-cased remark. A remark that is
   * not a string is `None`.
   */
  function ContainsReason(remark: Option<string>, reason: string): bool
  {
    remark.Some? && remark.value != [] && Contains(Lower(remark.value), Lower(reason))
  }

  /** The category of the first entry of `entries` whose key occurs in `text`. */
  function FirstReason(text: string, entries: seq<(string, Category)>): (r: Option<Category>)
    ensures r.Some? ==> exists k :: 0 <= k < |entries| && entries[k].1 == r.value && ContainsReason(Some(text), entries[k].0)
    ensures r.None? ==> forall k :: 0 <= k < |entries| ==> !ContainsReason(Some(text), entries[k].0)
  {
    if entries == [] then None
    else if ContainsReason(Some(text), entries[0].0) then Some(entries[0].1)
    else FirstReason(text, entries[1..])
  }

  /**
   * `map_rejection_reason`: `None` and the empty string give `No_Remark`;
   * otherwise the first key of `REJECTION_REASONS_MAP` found in the
   * remark, or `Unknown`.
   */
  function MapReason(remark: Option<string>): (c: Category)
    ensures c != Error
    ensures c == NoRemark <==> remark.None? || remark.value == []
  {
    if remark.Some? && remark.value != [] then
      match FirstReason(remark.value, ReasonsMap)
      case Some(c) => c
      case None => Unknown
    else
      NoRemark
  }

  /**
   * `complex_rejection_classifier`: a remark that is not a string, is
   * empty or strips to nothing gives `No_Remark`; then the three keywords
   * are tested in priority order, and a remark with none of them falls
   * back to `map_rejection_reason`.
   */
  function Classify(remark: Option<string>): (c: Category)
    ensures c != Error
    ensures c == NoRemark <==> remark.None? || IsBlank(remark.value)
  {
    if remark.None? || remark.value == [] || |Strip(remark.value)| == 0 then
      NoRemark
    else
      var fakeDoc := ContainsReason(remark, FakeDocumentKey);
      var notCovered := ContainsReason(remark, NotCoveredKey);
      var policyExpired := ContainsReason(remark, PolicyExpiredKey);
      if fakeDoc then FakeDocument
      else if notCovered then NotCovered
      else if policyExpired then PolicyExpired
      else MapReason(remark)
  }

  /** The three keys are already lower case, so lower-casing them changes nothing. */
  lemma KeysLowerCase()
    ensures Lower(FakeDocumentKey) == FakeDocumentKey
    ensures Lower(NotCoveredKey) == NotCoveredKey
    ensures Lower(PolicyExpiredKey) == PolicyExpiredKey
  {
    assert forall i :: 0 <= i < |FakeDocumentKey| ==> !('A' <= FakeDocumentKey[i] <= 'Z');
    assert forall i :: 0 <= i < |NotCoveredKey| ==> !('A' <= NotCoveredKey[i] <= 'Z');
    assert forall i :: 0 <= i < |PolicyExpiredKey| ==> !('A' <= PolicyExpiredKey[i] <= 'Z');
  }

  /**
   * A reason is found exactly when the remark is a non-empty string with a
   * slice equal to the lower-cased reason, ignoring case.
   */
  lemma ContainsReasonIff(remark: Option<string>, reason: string)
    ensures ContainsReason(remark, reason) <==>
      remark.Some? && remark.value != [] && exists i :: OccursAt(Lower(remark.value), Lower(reason), i)
  {
    if remark.Some? {
      ContainsIff(Lower(remark.value), Lower(reason));
    }
  }

  /** A remark made only of whitespace contains none of the keys. */
  lemma BlankHasNoKey(t: string, key: string)
    requires IsBlank(t) && key in {FakeDocumentKey, NotCoveredKey, PolicyExpiredKey}
    ensures !ContainsReason(Some(t), key)
  {
    KeysLowerCase();
    LowerIdempotent(t);
    ContainsReasonIff(Some(t), key);
    var u := Lower(t);
    assert key != [] && !IsSpace(key[0]);
    forall i | 0 <= i <= |u| - |key| ensures !OccursAt(u, key, i) {
      assert IsSpace(u[i]) && u[i..i + |key|][0] == u[i];
    }
  }

  /**
   * `map_rejection_reason` gives `No_Remark` for `None` and for `''`, but a
   * non-empty whitespace-only remark is classified `Unknown`.
   */
  lemma MapReasonBlank(t: string)
    requires IsBlank(t) && t != []
    ensures MapReason(Some(t)) == Unknown
  {
    BlankHasNoKey(t, FakeDocumentKey);
    BlankHasNoKey(t, NotCoveredKey);
    BlankHasNoKey(t, PolicyExpiredKey);
    MapReasonInOrder(t);
  }

  /** The map is searched in its order: `fake_document`, `not_covered`, `policy_expired`. */
  lemma MapReasonInOrder(t: string)
    requires t != []
    ensures MapReason(Some(t)) ==
      if ContainsReason(Some(t), FakeDocumentKey) then FakeDocument
      else if ContainsReason(Some(t), NotCoveredKey) then NotCovered
      else if ContainsReason(Some(t), PolicyExpiredKey) then PolicyExpired
      else Unknown
  {
    var e0 := ReasonsMap;
    var e1 := e0[1..];
    var e2 := e1[1..];
    assert e0[0] == (FakeDocumentKey, FakeDocument);
    assert e1[0] == (NotCoveredKey, NotCovered);
    assert e2[0] == (PolicyExpiredKey, PolicyExpired);
    assert FirstReason(t, e2[1..]) == None;
    assert FirstReason(t, e2) == if ContainsReason(Some(t), PolicyExpiredKey) then Some(PolicyExpired) else None;
    assert FirstReason(t, e1) == if ContainsReason(Some(t), NotCoveredKey) then Some(NotCovered) else FirstReason(t, e2);
    assert FirstReason(t, e0) == if ContainsReason(Some(t), FakeDocumentKey) then Some(FakeDocument) else FirstReason(t, e1);
  }

  /** On a remark that is not blank, the if/elif chain and the map agree. */
  lemma ClassifyAgreesWithMap(t: string)
    requires !IsBlank(t)
    ensures Classify(Some(t)) == MapReason(Some(t))
  {
    MapReasonInOrder(t);
  }

  /**
   * The category of a non-blank remark, stated through occurrences:
   * `fake_document` wins over `not_covered`, which wins over
   * `policy_expired`; a remark with none of them is `Unknown`.
   */
  lemma ClassifyByOccurrence(t: string)
    requires !IsBlank(t)
    ensures (exists i :: OccursAt(Lower(t), FakeDocumentKey, i)) ==> Classify(Some(t)) == FakeDocument
    ensures ((forall i :: !OccursAt(Lower(t), FakeDocumentKey, i)) && (exists i :: OccursAt(Lower(t), NotCoveredKey, i)))
      ==> Classify(Some(t)) == NotCovered
    ensures ((forall i :: !OccursAt(Lower(t), FakeDocumentKey, i)) && (forall i :: !OccursAt(Lower(t), NotCoveredKey, i))
             && (exists i :: OccursAt(Lower(t), PolicyExpiredKey, i)))
      ==> Classify(Some(t)) == PolicyExpired
    ensures ((forall i :: !OccursAt(Lower(t), FakeDocumentKey, i)) && (forall i :: !OccursAt(Lower(t), NotCoveredKey, i))
             && (forall i :: !OccursAt(Lower(t), PolicyExpiredKey, i)))
      ==> Classify(Some(t)) == Unknown
  {
    KeysLowerCase();
    assert t != [];
    ContainsReasonIff(Some(t), FakeDocumentKey);
    ContainsReasonIff(Some(t), NotCoveredKey);
    ContainsReasonIff(Some(t), PolicyExpiredKey);
    MapReasonInOrder(t);
  }

  /** Remarks that lower-case to the same string get the same category. */
  lemma ClassifySameLower(a: string, b: string)
    requires Lower(a) == Lower(b)
    ensures Classify(Some(a)) == Classify(Some(b))
    ensures MapReason(Some(a)) == MapReason(Some(b))
  {
    LowerIdempotent(a);
    LowerIdempotent(b);
    assert |a| == |Lower(a)| == |b|;
    if a != [] {
      MapReasonInOrder(a);
      MapReasonInOrder(b);
    }
  }
}
