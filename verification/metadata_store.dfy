/**
 * The in-memory backend of the metadata service
 * (src/FileHostingApi/Services/FileMetadataService.cs): a list of records in
 * insertion order, read and changed by List, GetById, Create and Delete.
 * Each operation is a pure function from the old list to its result and,
 * for Create and Delete, the new list.
 */
module MetadataStore {
  import opened Wrappers
  import opened Models

  /** The backing `List<FileMetadata>`, in insertion order. */
  type Store = seq<FileMetadata>

  /** Some record of `s` carries identifier `id`. */
  predicate HasId(s: Store, id: string) {
    exists j :: 0 <= j < |s| && s[j].id == id
  }

  /** Position `k` holds the first record of `s` whose identifier is `id`. */
  predicate IsFirstMatch(s: Store, id: string, k: int) {
    && 0 <= k < |s|
    && s[k].id == id
    && forall j :: 0 <= j < k ==> s[j].id != id
  }

  /** No two records share an identifier. */
  predicate UniqueIds(s: Store) {
    forall i, j :: 0 <= i < j < |s| ==> s[i].id != s[j].id
  }

  /** Every record has had an identifier assigned. */
  predicate IdsAssigned(s: Store) {
    forall i :: 0 <= i < |s| ==> !IsNullOrWhiteSpace(s[i].id)
  }

  /**
   * What the identifier generator (`ObjectId.GenerateNewId`) is relied on
   * to deliver: a non-blank identifier that no stored record carries yet.
   */
  predicate FreshId(s: Store, generated: string) {
    !IsNullOrWhiteSpace(generated) && !HasId(s, generated)
  }

  /** The record-by-record copy that List makes of each stored record. */
  function CopyRecord(f: FileMetadata): (r: FileMetadata)
    ensures r == f
  {
    FileMetadata(f.id, f.fileName, f.uploadDate, f.size, f.uploader)
  }

  /**
   * `GetAsync`: a fresh list holding a copy of every stored record. The
   * copy has the same length, the same order and the same field values,
   * and the store itself is not an output, so it is left as it was.
   */
  function List(s: Store): (r: Store)
    ensures |r| == |s|
    ensures forall i :: 0 <= i < |s| ==> r[i] == s[i]
    decreases |s|
  {
    if |s| == 0 then [] else [CopyRecord(s[0])] + List(s[1..])
  }

  /**
   * `List<T>.FindIndex` with the predicate `f.Id == id`: the position of
   * the first record carrying `id`, or -1 when there is none.
   */
  function FindIndex(s: Store, id: string): (r: int)
    ensures -1 <= r < |s|
    ensures r == -1 <==> !HasId(s, id)
    ensures r != -1 ==> IsFirstMatch(s, id, r)
    decreases |s|
  {
    if |s| == 0 then -1
    else if s[0].id == id then 0
    else
      var k := FindIndex(s[1..], id);
      assert forall j :: 1 <= j < |s| ==> s[j] == s[1..][j - 1];
      if k == -1 then -1 else k + 1
  }

  /**
   * `GetByIdAsync`: the first record whose identifier equals `id`
   * (`FirstOrDefault`), or `None` when no record carries it. A miss is an
   * ordinary result, not an error.
   */
  function GetById(s: Store, id: string): (r: Option<FileMetadata>)
    ensures r.None? <==> !HasId(s, id)
    ensures forall k :: IsFirstMatch(s, id, k) ==> r == Some(s[k])
  {
    var k := FindIndex(s, id);
    if k == -1 then None else Some(s[k])
  }

  /** The result of `CreateAsync`: the new store and the stored record. */
  datatype Created = Created(store: Store, record: FileMetadata)

  /**
   * `CreateAsync`: a record whose identifier is null or white space gets
   * the generated identifier `generated`, any other identifier is kept;
   * the record is then appended and returned. The generator is a parameter.
   */
  function Create(s: Store, f: FileMetadata, generated: string): (r: Created)
    ensures IsNullOrWhiteSpace(f.id) ==> r.record.id == generated
    ensures !IsNullOrWhiteSpace(f.id) ==> r.record.id == f.id
    ensures r.record.(id := f.id) == f
    ensures |r.store| == |s| + 1
    ensures r.store[..|s|] == s
    ensures r.store[|s|] == r.record
  {
    var stored := if IsNullOrWhiteSpace(f.id) then f.(id := generated) else f;
    Created(s + [stored], stored)
  }

  /** `List<T>.RemoveAt`: the list without position `k`. */
  function RemoveAt(s: Store, k: int): (r: Store)
    requires 0 <= k < |s|
    ensures |r| == |s| - 1
    ensures forall j :: 0 <= j < k ==> r[j] == s[j]
    ensures forall j :: k <= j < |r| ==> r[j] == s[j + 1]
  {
    s[..k] + s[k + 1..]
  }

  /**
   * `DeleteAsync`: removes the first record carrying `id`, keeping every
   * other record in its relative order; an absent `id` leaves the store as
   * it was.
   */
  function Delete(s: Store, id: string): (r: Store)
    ensures !HasId(s, id) ==> r == s
    ensures HasId(s, id) ==> |r| == |s| - 1
    ensures forall k :: IsFirstMatch(s, id, k) ==> r[..k] == s[..k] && r[k..] == s[k + 1..]
  {
    var k := FindIndex(s, id);
    if k == -1 then s else RemoveAt(s, k)
  }

  /**
   * A record created under an identifier nobody carries yet is what
   * GetById then finds under that identifier.
   */
  lemma CreateThenGetById(s: Store, f: FileMetadata, generated: string)
    requires !HasId(s, Create(s, f, generated).record.id)
    ensures GetById(Create(s, f, generated).store, Create(s, f, generated).record.id)
            == Some(Create(s, f, generated).record)
  {
    var c := Create(s, f, generated);
    assert IsFirstMatch(c.store, c.record.id, |s|);
  }

  /** With a fresh generated identifier, creating a blank-id record keeps identifiers distinct and assigned. */
  lemma CreatePreservesUniqueIds(s: Store, f: FileMetadata, generated: string)
    requires UniqueIds(s) && IdsAssigned(s)
    requires IsNullOrWhiteSpace(f.id) && FreshId(s, generated)
    ensures UniqueIds(Create(s, f, generated).store)
    ensures IdsAssigned(Create(s, f, generated).store)
  {
    var c := Create(s, f, generated);
    forall i, j | 0 <= i < j < |c.store|
      ensures c.store[i].id != c.store[j].id
    {
      if j == |s| {
        assert c.store[i] == s[i];
      } else {
        assert c.store[i] == s[i] && c.store[j] == s[j];
      }
    }
    forall i | 0 <= i < |c.store|
      ensures !IsNullOrWhiteSpace(c.store[i].id)
    {
      if i < |s| {
        assert c.store[i] == s[i];
      }
    }
  }

  /** Deleting the identifier of a record just created under a new identifier restores the old store. */
  lemma DeleteAfterCreate(s: Store, f: FileMetadata, generated: string)
    requires !HasId(s, Create(s, f, generated).record.id)
    ensures Delete(Create(s, f, generated).store, Create(s, f, generated).record.id) == s
  {
    var c := Create(s, f, generated);
    assert IsFirstMatch(c.store, c.record.id, |s|);
    assert Delete(c.store, c.record.id)[..|s|] == s;
  }

  /** Deleting keeps identifiers distinct and assigned. */
  lemma DeletePreservesUniqueIds(s: Store, id: string)
    requires UniqueIds(s) && IdsAssigned(s)
    ensures UniqueIds(Delete(s, id)) && IdsAssigned(Delete(s, id))
  {
    var k := FindIndex(s, id);
    if k != -1 {
      var r := Delete(s, id);
      assert r == RemoveAt(s, k);
      forall i, j | 0 <= i < j < |r|
        ensures r[i].id != r[j].id
      {
        var i' := if i < k then i else i + 1;
        var j' := if j < k then j else j + 1;
        assert r[i] == s[i'] && r[j] == s[j'];
      }
      forall i | 0 <= i < |r|
        ensures !IsNullOrWhiteSpace(r[i].id)
      {
        var i' := if i < k then i else i + 1;
        assert r[i] == s[i'];
      }
    }
  }

  /** When identifiers are distinct, Delete removes the identifier altogether: GetById then misses. */
  lemma DeleteThenGetById(s: Store, id: string)
    requires UniqueIds(s)
    ensures GetById(Delete(s, id), id) == None
  {
    var k := FindIndex(s, id);
    if k != -1 {
      var r := Delete(s, id);
      assert r == RemoveAt(s, k);
      forall j | 0 <= j < |r|
        ensures r[j].id != id
      {
        if j < k {
          assert r[j] == s[j];
        } else {
          assert r[j] == s[j + 1];
        }
      }
    }
  }
}
