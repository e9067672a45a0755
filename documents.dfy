/**
 * The document store of `document_service.rs`: document metadata and CRDT content in two
 * relational tables, the content row referencing its metadata row, every instant written and
 * read truncated to the millisecond.
 */
module Documents {
  import opened Wrappers
  import opened Primitives

  // ---------------------------------------------------------------------------------------
  // Millisecond truncation
  // ---------------------------------------------------------------------------------------

  /** `trunc_to_millis`: the instant floored to the start of its millisecond. */
  function TruncToMillis(t: Timestamp): (r: Timestamp)
    ensures r <= t && t - r < NanosPerMilli
    ensures r % NanosPerMilli == 0
  {
    FromTimestampMillis(TimestampMillis(t))
  }

  /** Truncating twice is truncating once, so a truncated instant that is stored and
      truncated again on read comes back identical. */
  lemma TruncIdempotent(t: Timestamp)
    ensures TruncToMillis(TruncToMillis(t)) == TruncToMillis(t)
  {
    MillisRoundTrip(TimestampMillis(t));
  }

  /** An instant is its own truncation exactly when it is a whole millisecond. */
  lemma TruncFixedPoints(t: Timestamp)
    ensures TruncToMillis(t) == t <==> t % NanosPerMilli == 0
  {
    if t % NanosPerMilli == 0 {
      assert t == FromTimestampMillis(t / NanosPerMilli);
    }
  }

  /** Truncation keeps the order of instants, so a later clock reading never stores an
      earlier `updated_at`. */
  lemma TruncMonotone(a: Timestamp, b: Timestamp)
    requires a <= b
    ensures TruncToMillis(a) <= TruncToMillis(b)
  {
  }

  // ---------------------------------------------------------------------------------------
  // Rows
  // ---------------------------------------------------------------------------------------

  /** A row of `documents_metadata`. */
  datatype DocumentMetadata = DocumentMetadata(id: Uuid, name: string, createdAt: Timestamp,
                                               updatedAt: Timestamp)

  /** A row of `documents_content`: the opaque CRDT state of one document. */
  datatype DocumentContent = DocumentContent(documentId: Uuid, crdtData: seq<Byte>,
                                             updatedAt: Timestamp)

  /** A document as `get_document` assembles it. */
  datatype Document = Document(metadata: DocumentMetadata, content: Option<DocumentContent>)

  /** The constraint violations the two writes can meet. */
  datatype DbError =
      /** INSERT of a metadata id that is already present (primary key). */
      UniqueViolation
      /** Content for a document id with no metadata row (foreign key). */
    | ForeignKeyViolation

  /** The two tables, keyed by document id. */
  datatype DocTables = DocTables(metadata: map<Uuid, DocumentMetadata>,
                                 content: map<Uuid, DocumentContent>)

  /**
   * What the writes of this service keep true: every content row references an existing
   * metadata row (the foreign key), every row sits under its own id, and every stored instant
   * is a whole millisecond.
   */
  predicate WellFormed(d: DocTables) {
    && (forall id | id in d.content :: id in d.metadata && d.content[id].documentId == id
                                       && d.content[id].updatedAt % NanosPerMilli == 0)
    && (forall id | id in d.metadata :: d.metadata[id].id == id
                                        && d.metadata[id].createdAt % NanosPerMilli == 0
                                        && d.metadata[id].updatedAt % NanosPerMilli == 0)
  }

  // ---------------------------------------------------------------------------------------
  // Reads
  // ---------------------------------------------------------------------------------------

  /** `get_document_metadata`: the row, its instants truncated on read; `None` when absent. */
  function GetDocumentMetadata(d: DocTables, docId: Uuid): (r: Option<DocumentMetadata>)
    ensures r.None? <==> docId !in d.metadata
    ensures r.Some? ==> r.value.id == d.metadata[docId].id && r.value.name == d.metadata[docId].name
    ensures r.Some? ==> r.value.createdAt == TruncToMillis(d.metadata[docId].createdAt)
                        && r.value.updatedAt == TruncToMillis(d.metadata[docId].updatedAt)
  {
    if docId in d.metadata then
      var row := d.metadata[docId];
      Some(DocumentMetadata(row.id, row.name, TruncToMillis(row.createdAt), TruncToMillis(row.updatedAt)))
    else None
  }

  /** `get_document_content`: the row, its instant truncated on read; `None` when absent. */
  function GetDocumentContent(d: DocTables, docId: Uuid): (r: Option<DocumentContent>)
    ensures r.None? <==> docId !in d.content
    ensures r.Some? ==> r.value.documentId == d.content[docId].documentId
                        && r.value.crdtData == d.content[docId].crdtData
                        && r.value.updatedAt == TruncToMillis(d.content[docId].updatedAt)
  {
    if docId in d.content then
      var row := d.content[docId];
      Some(DocumentContent(row.documentId, row.crdtData, TruncToMillis(row.updatedAt)))
    else None
  }

  /** `get_document`: the metadata paired with the optional content; `None` when there is no
      metadata, whatever the content table holds. */
  function GetDocument(d: DocTables, docId: Uuid): (r: Option<Document>)
    ensures r.None? <==> GetDocumentMetadata(d, docId).None?
    ensures r.Some? ==> r.value.metadata == GetDocumentMetadata(d, docId).value
                        && r.value.content == GetDocumentContent(d, docId)
  {
    match GetDocumentMetadata(d, docId)
    case Some(metadata) => Some(Document(metadata, GetDocumentContent(d, docId)))
    case None => None
  }

  /** In well-formed tables every read returns the stored row unchanged. */
  lemma ReadsAreExact(d: DocTables, docId: Uuid)
    requires WellFormed(d)
    ensures docId in d.metadata ==> GetDocumentMetadata(d, docId) == Some(d.metadata[docId])
    ensures docId in d.content ==> GetDocumentContent(d, docId) == Some(d.content[docId])
  {
    if docId in d.metadata {
      TruncFixedPoints(d.metadata[docId].createdAt);
      TruncFixedPoints(d.metadata[docId].updatedAt);
    }
    if docId in d.content {
      TruncFixedPoints(d.content[docId].updatedAt);
    }
  }

  /** In well-formed tables a document with content always has metadata, so `get_document`
      never hides a content row. */
  lemma ContentImpliesDocument(d: DocTables, docId: Uuid)
    requires WellFormed(d) && docId in d.content
    ensures GetDocument(d, docId).Some? && GetDocument(d, docId).value.content.Some?
  {
  }

  // ---------------------------------------------------------------------------------------
  // The service
  // ---------------------------------------------------------------------------------------

  /** `DocumentService`: the two tables it writes through its connection pool. */
  class DocumentService {
    var metadata: map<Uuid, DocumentMetadata>
    var content: map<Uuid, DocumentContent>

    function State(): DocTables
      reads this
    {
      DocTables(metadata, content)
    }

    /** A service over an empty database. */
    constructor ()
      ensures State() == DocTables(map[], map[])
    {
      metadata, content := map[], map[];
    }

    /**
     * `update_document_content`, with the clock reading `clock`: upserts the content row with
     * the data and `trunc(clock)`, then sets the metadata's `updated_at` to the same instant.
     * Content for a document with no metadata violates the foreign key and writes nothing.
     */
    method UpdateDocumentContent(docId: Uuid, contentData: seq<Byte>, clock: Timestamp)
      returns (r: Result<(), DbError>)
      modifies this
      ensures r.Success? <==> docId in old(metadata)
      ensures r.Failure? ==> r.error == ForeignKeyViolation && State() == old(State())
      ensures r.Success? ==>
                && content == old(content)[docId := DocumentContent(docId, contentData, TruncToMillis(clock))]
                && metadata == old(metadata)[docId := old(metadata)[docId].(updatedAt := TruncToMillis(clock))]
      ensures WellFormed(old(State())) ==> WellFormed(State())
    {
      var now := TruncToMillis(clock);

      if docId !in metadata {
        return Failure(ForeignKeyViolation);
      }
      content := content[docId := DocumentContent(docId, contentData, now)];

      metadata := metadata[docId := metadata[docId].(updatedAt := now)];
      return Success(());
    }

    /**
     * `create_document`, with the generated id and two clock readings: `clock` for the
     * metadata it inserts and returns, `contentClock` for the initial empty content that
     * `update_document_content` then writes (it reads the clock again). An id that is already
     * present violates the primary key and writes nothing.
     */
    method CreateDocument(name: string, id: Uuid, clock: Timestamp, contentClock: Timestamp)
      returns (r: Result<DocumentMetadata, DbError>)
      modifies this
      ensures r.Success? <==> id !in old(metadata)
      ensures r.Failure? ==> r.error == UniqueViolation && State() == old(State())
      ensures r.Success? ==>
                && r.value == DocumentMetadata(id, name, TruncToMillis(clock), TruncToMillis(clock))
                && metadata == old(metadata)[id := r.value.(updatedAt := TruncToMillis(contentClock))]
                && content == old(content)[id := DocumentContent(id, [], TruncToMillis(contentClock))]
      ensures WellFormed(old(State())) ==> WellFormed(State())
    {
      var now := TruncToMillis(clock);
      var created := DocumentMetadata(id, name, now, now);

      if id in metadata {
        return Failure(UniqueViolation);
      }
      metadata := metadata[id := created];

      var _ := UpdateDocumentContent(id, [], contentClock);
      return Success(created);
    }
  }

  // ---------------------------------------------------------------------------------------
  // What the writes promise to a later read
  // ---------------------------------------------------------------------------------------

  /** The tables after `create_document` of `id` succeeded. */
  function AfterCreate(d: DocTables, id: Uuid, name: string, clock: Timestamp, contentClock: Timestamp): DocTables {
    DocTables(d.metadata[id := DocumentMetadata(id, name, TruncToMillis(clock), TruncToMillis(contentClock))],
              d.content[id := DocumentContent(id, [], TruncToMillis(contentClock))])
  }

  /**
   * After `create_document`, the document reads back with its name and `created_at`, and with
   * empty content. Its metadata reads back equal to what `create_document` returned exactly
   * when both clock readings fall in the same millisecond.
   */
  lemma CreatedDocumentReadBack(d: DocTables, id: Uuid, name: string, clock: Timestamp, contentClock: Timestamp)
    ensures var d' := AfterCreate(d, id, name, clock, contentClock);
            && GetDocumentMetadata(d', id).Some?
            && GetDocumentMetadata(d', id).value.name == name
            && GetDocumentMetadata(d', id).value.createdAt == TruncToMillis(clock)
            && GetDocumentContent(d', id) == Some(DocumentContent(id, [], TruncToMillis(contentClock)))
            && (GetDocumentMetadata(d', id) == Some(DocumentMetadata(id, name, TruncToMillis(clock), TruncToMillis(clock)))
                <==> TruncToMillis(clock) == TruncToMillis(contentClock))
  {
    TruncIdempotent(clock);
    TruncIdempotent(contentClock);
  }

  /** The tables after `update_document_content` of an existing document. */
  function AfterUpdate(d: DocTables, docId: Uuid, contentData: seq<Byte>, clock: Timestamp): DocTables
    requires docId in d.metadata
  {
    DocTables(d.metadata[docId := d.metadata[docId].(updatedAt := TruncToMillis(clock))],
              d.content[docId := DocumentContent(docId, contentData, TruncToMillis(clock))])
  }

  /**
   * After `update_document_content`, the document reads back with the new data, the metadata
   * and the content share one `updated_at`, the name and `created_at` are those read before,
   * and every other document reads as before.
   */
  lemma UpdatedDocumentReadBack(d: DocTables, docId: Uuid, contentData: seq<Byte>, clock: Timestamp, other: Uuid)
    requires docId in d.metadata
    ensures var d' := AfterUpdate(d, docId, contentData, clock);
            && GetDocument(d', docId).Some?
            && GetDocument(d', docId).value.content == Some(DocumentContent(docId, contentData, TruncToMillis(clock)))
            && GetDocument(d', docId).value.metadata.updatedAt == TruncToMillis(clock)
            && GetDocument(d', docId).value.metadata.name == GetDocument(d, docId).value.metadata.name
            && GetDocument(d', docId).value.metadata.createdAt == GetDocument(d, docId).value.metadata.createdAt
            && (other != docId ==> GetDocument(d', other) == GetDocument(d, other))
  {
    TruncIdempotent(clock);
  }

  /** Two successive content updates with ordered clock readings never move `updated_at`
      backwards. */
  lemma UpdatesKeepUpdatedAtOrdered(d: DocTables, docId: Uuid, first: seq<Byte>, second: seq<Byte>,
                                    clock1: Timestamp, clock2: Timestamp)
    requires docId in d.metadata && clock1 <= clock2
    ensures var d1 := AfterUpdate(d, docId, first, clock1);
            var d2 := AfterUpdate(d1, docId, second, clock2);
            d1.metadata[docId].updatedAt <= d2.metadata[docId].updatedAt
            && d2.content[docId].crdtData == second
  {
    TruncMonotone(clock1, clock2);
  }
}
