/** The decision logic of the store handlers: request validation, the
    derivation of a new record, and the table transitions made by the
    create and delete requests and by the two detached completion tasks.
    The table is the store collection keyed by id. */
module Stores {
  import opened Common
  import opened GoStrings
  import opened Http
  import opened Models

  const MinNameBytes := 2
  const MaxNameBytes := 50

  /** One character of `[a-zA-Z0-9\s\-_]`, where RE2's `\s` is `[\t\n\f\r ]`. */
  predicate NameChar(c: char)
  {
    ('a' <= c <= 'z') || ('A' <= c <= 'Z') || ('0' <= c <= '9')
    || c == '\t' || c == '\n' || c as int == 0x0C || c == '\r' || c == ' '
    || c == '-' || c == '_'
  }

  /** `^[a-zA-Z0-9\s\-_]+$` matches the whole name. */
  predicate NamePattern(name: string)
    ensures NamePattern(name) ==> IsAscii(name) && name != []
  {
    |name| >= 1 && forall k :: 0 <= k < |name| ==> NameChar(name[k])
  }

  datatype CreateError =
    | MissingField     // a `binding:"required"` field is empty
    | NameLength       // trimmed name under 2 bytes, or raw name over 50 bytes
    | NameCharacters   // the name pattern does not match
    | UnknownType      // neither "woocommerce" nor "medusa"

  /** The checks of `CreateStore`, in the order the handler makes them. */
  function ValidateCreate(name: string, storeType: string): (e: Option<CreateError>)
    ensures e.None? <==>
      && KnownType(storeType) && NamePattern(name)
      && Utf8Len(name) <= MaxNameBytes && Utf8Len(TrimSpace(name)) >= MinNameBytes
    ensures e == Some(MissingField) <==> name == "" || storeType == ""
    ensures e == Some(UnknownType) <==>
      && name != "" && storeType != "" && !KnownType(storeType) && NamePattern(name)
      && Utf8Len(name) <= MaxNameBytes && Utf8Len(TrimSpace(name)) >= MinNameBytes
  {
    if name == "" || storeType == "" then Some(MissingField)
    else if Utf8Len(TrimSpace(name)) < MinNameBytes || Utf8Len(name) > MaxNameBytes then Some(NameLength)
    else if !NamePattern(name) then Some(NameCharacters)
    else if !KnownType(storeType) then Some(UnknownType)
    else None
  }

  /** An accepted name is plain ASCII of at most 50 characters whose trimmed
      form keeps at least 2 characters, all from the name alphabet. */
  lemma AcceptedName(name: string, storeType: string)
    requires ValidateCreate(name, storeType).None?
    ensures IsAscii(name) && |name| <= MaxNameBytes
    ensures var t := TrimSpace(name); MinNameBytes <= |t| <= |name| && forall c :: c in t ==> NameChar(c)
  {
    assert IsAscii(name);
    AsciiUtf8Len(name);
    var t := TrimSpace(name);
    assert forall c :: c in t ==> NameChar(c) by {
      forall c | c in t ensures NameChar(c) {
        var k :| 0 <= k < |name| && name[k] == c;
      }
    }
    assert IsAscii(t) by {
      forall k | 0 <= k < |t| ensures t[k] as int < 0x80 {
        assert t[k] in t;
      }
    }
    AsciiUtf8Len(t);
  }

  /** The namespace of a store: "store-" and the first 8 characters of its id. */
  function NamespaceFor(id: string): string
    requires |id| >= 8
  {
    "store-" + id[..8]
  }

  /** The record `CreateStore` inserts: the trimmed name, status
      `Provisioning`, namespace "store-" and the first 8 characters of the
      id, URL `http://` + namespace + "." + suffix, both timestamps the
      creation time and no error. */
  function NewRecord(id: string, name: string, storeType: string, suffixEnv: string, now: int): (s: Store)
    requires |id| >= 8
    ensures s.id == id && s.name == TrimSpace(name) && s.storeType == storeType
    ensures s.status == Provisioning && s.errorMessage.None?
    ensures |s.namespace| == 14 && s.namespace[..6] == "store-" && s.namespace[6..] == id[..8]
    ensures s.url == "http://" + s.namespace + "." + (if suffixEnv == "" then "localhost" else suffixEnv)
    ensures s.createdAt == now && s.updatedAt == now
  {
    var ns := NamespaceFor(id);
    Store(id, TrimSpace(name), storeType, Provisioning, "http://" + Host(ns, suffixEnv), ns, now, now, None)
  }

  type Table = map<string, Store>

  /** Every record is filed under its own id. */
  predicate Keyed(t: Table)
  {
    forall id :: id in t ==> t[id].id == id
  }

  /** The fields fixed at creation. */
  predicate SameIdentity(a: Store, b: Store)
  {
    a.id == b.id && a.name == b.name && a.storeType == b.storeType
    && a.namespace == b.namespace && a.url == b.url && a.createdAt == b.createdAt
  }

  /** No record that survives a step changes its identity fields. */
  predicate Preserves(t: Table, t': Table)
  {
    forall id :: id in t && id in t' ==> SameIdentity(t[id], t'[id])
  }

  datatype CreateReply =
    | Rejected(reason: CreateError)
    | InsertFailed
    | Accepted(store: Store)

  function CreateStatus(r: CreateReply): (code: int)
    ensures code == StatusAccepted <==> r.Accepted?
    ensures code == StatusBadRequest <==> r.Rejected?
    ensures code == StatusInternalServerError <==> r.InsertFailed?
  {
    match r
    case Rejected(_) => StatusBadRequest
    case InsertFailed => StatusInternalServerError
    case Accepted(_) => StatusAccepted
  }

  /** The table effect of `CreateStore` with the generated `id`: a rejected
      request inserts nothing; inserting under an id already present violates
      the primary key and fails; otherwise exactly one `Provisioning` record
      is inserted. */
  function Create(t: Table, name: string, storeType: string, id: string, suffixEnv: string, now: int)
    : (r: (CreateReply, Table))
    requires |id| >= 8
    ensures r.0.Accepted? <==> ValidateCreate(name, storeType).None? && id !in t
    ensures r.0.Rejected? <==> ValidateCreate(name, storeType).Some?
    ensures !r.0.Accepted? ==> r.1 == t
    ensures r.0.Accepted? ==> r.1 == t[id := r.0.store] && |r.1| == |t| + 1
    ensures r.0.Accepted? ==> var s := r.0.store;
      s.id == id && s.status == Provisioning && s.errorMessage.None? && s.name == TrimSpace(name)
      && s.storeType == storeType && s.createdAt == now && s.updatedAt == now
      && s.namespace == NamespaceFor(id) && s.url == "http://" + Host(s.namespace, suffixEnv)
    ensures Keyed(t) ==> Keyed(r.1)
    ensures Preserves(t, r.1)
  {
    match ValidateCreate(name, storeType)
    case Some(e) => (Rejected(e), t)
    case None =>
      if id in t then (InsertFailed, t)
      else
        var s := NewRecord(id, name, storeType, suffixEnv, now);
        (Accepted(s), t[id := s])
  }

  datatype DeleteReply = NotFound | AlreadyDeleting | Started

  function DeleteStatus(r: DeleteReply): (code: int)
    ensures code == StatusNotFound <==> r == NotFound
    ensures code == StatusConflict <==> r == AlreadyDeleting
    ensures code == StatusOK <==> r == Started
  {
    match r
    case NotFound => StatusNotFound
    case AlreadyDeleting => StatusConflict
    case Started => StatusOK
  }

  /** The synchronous part of `DeleteStore`: a missing id is 404, a store
      already `Deleting` is 409, and any other status (`DeletionFailed`
      included) is marked `Deleting` before teardown starts. */
  function MarkDeleting(t: Table, id: string, now: int): (r: (DeleteReply, Table))
    ensures r.0 == NotFound <==> id !in t
    ensures r.0 == AlreadyDeleting <==> id in t && t[id].status == Deleting
    ensures r.0 != Started ==> r.1 == t
    ensures r.0 == Started ==>
      (r.1.Keys == t.Keys && r.1[id].status == Deleting
       && r.1[id].updatedAt == now && r.1[id].errorMessage == t[id].errorMessage)
    ensures forall other :: other in t && other != id ==> other in r.1 && r.1[other] == t[other]
    ensures Keyed(t) ==> Keyed(r.1)
    ensures Preserves(t, r.1)
  {
    if id !in t then (NotFound, t)
    else if t[id].status == Deleting then (AlreadyDeleting, t)
    else (Started, t[id := t[id].(status := Deleting, updatedAt := now)])
  }

  /** The provisioning task's single update of status, error message and
      updated-at. It does not look at the current status; a record deleted
      in the meantime is not recreated. */
  function FinishProvisioning(t: Table, id: string, err: Option<string>, now: int): (t': Table)
    ensures t'.Keys == t.Keys
    ensures id in t ==>
      (t'[id].status == (if err.None? then Ready else Failed)
       && t'[id].errorMessage == err && t'[id].updatedAt == now)
    ensures forall other :: other in t && other != id ==> t'[other] == t[other]
    ensures Keyed(t) ==> Keyed(t')
    ensures Preserves(t, t')
  {
    if id !in t then t
    else t[id := t[id].(status := if err.None? then Ready else Failed, errorMessage := err, updatedAt := now)]
  }

  /** The deletion task's outcome: success removes the record, failure keeps
      it as `DeletionFailed` with the error text. */
  function FinishDeletion(t: Table, id: string, err: Option<string>, now: int): (t': Table)
    ensures err.None? ==> t'.Keys == t.Keys - {id}
    ensures err.Some? ==> t'.Keys == t.Keys
    ensures err.Some? && id in t ==>
      (t'[id].status == DeletionFailed && t'[id].errorMessage == err && t'[id].updatedAt == now)
    ensures forall other :: other in t && other != id ==> t'[other] == t[other]
    ensures Keyed(t) ==> Keyed(t')
    ensures Preserves(t, t')
  {
    if err.None? then t - {id}
    else if id !in t then t
    else t[id := t[id].(status := DeletionFailed, errorMessage := err, updatedAt := now)]
  }

  /** Two delete requests in a row: the first starts teardown, the second
      sees `Deleting` and is answered 409 without touching the table. */
  lemma SecondDeleteConflicts(t: Table, id: string, now1: int, now2: int)
    requires id in t && t[id].status != Deleting
    ensures MarkDeleting(t, id, now1).0 == Started
    ensures var t1 := MarkDeleting(t, id, now1).1;
      MarkDeleting(t1, id, now2) == (AlreadyDeleting, t1)
  {
  }

  /** The provisioning task does not check the status it overwrites: if it
      completes after a delete request marked the store `Deleting`, the
      store reads `Ready` again and a further delete request is accepted,
      starting a second teardown. */
  lemma LateProvisioningReopensDelete(t: Table, id: string, now1: int, now2: int, now3: int)
    requires id in t && t[id].status != Deleting
    ensures var t1 := MarkDeleting(t, id, now1).1;
      var t2 := FinishProvisioning(t1, id, None, now2);
      t2[id].status == Ready && MarkDeleting(t2, id, now3).0 == Started
  {
  }

  /** A store whose teardown failed can be deleted again. */
  lemma RetryAfterDeletionFailed(t: Table, id: string, err: string, now1: int, now2: int)
    requires id in t && t[id].status == Deleting
    ensures var t1 := FinishDeletion(t, id, Some(err), now1);
      t1[id].status == DeletionFailed && MarkDeleting(t1, id, now2).0 == Started
  {
  }

  lemma TestShopTrimmed()
    ensures TrimSpace("Test Shop") == "Test Shop"
  {
    assert LeadingSpaces("Test Shop") == 0;
    assert TrailingSpaces("Test Shop") == 0;
  }

  lemma TestShopPattern()
    ensures NamePattern("Test Shop") && IsAscii("Test Shop")
  {
  }

  /** "Test Shop" passes every check of `CreateStore` and is stored as is. */
  lemma TestShopAccepted()
    ensures ValidateCreate("Test Shop", WooCommerce) == None
    ensures TrimSpace("Test Shop") == "Test Shop"
  {
    TestShopTrimmed();
    TestShopPattern();
    AsciiUtf8Len("Test Shop");
  }

  /** The end-to-end path of a store: created with 202 as `Provisioning`,
      `Ready` with no error after a successful deploy, 200 on delete, and
      gone once teardown succeeds. */
  lemma CreateProvisionDelete(t: Table, id: string, suffixEnv: string, now1: int, now2: int, now3: int, now4: int)
    requires |id| >= 8 && id !in t
    ensures var (reply, t1) := Create(t, "Test Shop", WooCommerce, id, suffixEnv, now1);
      && CreateStatus(reply) == StatusAccepted && t1[id].status == Provisioning
      && var t2 := FinishProvisioning(t1, id, None, now2);
      && t2[id].status == Ready && t2[id].errorMessage.None?
      && var (d, t3) := MarkDeleting(t2, id, now3);
      && DeleteStatus(d) == StatusOK
      && id !in FinishDeletion(t3, id, None, now4)
  {
    TestShopAccepted();
  }
}
