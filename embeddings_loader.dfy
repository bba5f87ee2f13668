/**
 * `EmbeddingsLoader`: downloads the pickled `{full name: embedding}`
 * database once and caches it, and builds a class's
 * `{student_id: 128-vector}` table from the class's enrollments.
 *
 * Storage, the pickle file and the database queries are abstracted: the
 * outcome of the download, the enrolled ids and the id-to-full-name lookup
 * are parameters.
 */
module EmbeddingsLoader {
  import opened Roster
  import opened Vectors

  /** The only embedding length the loader accepts. */
  const EmbeddingDim: nat := 128

  /** The unpickled database: full name to stored embedding. */
  type Database = map<string, RawVector>

  /** What the download-and-unpickle step yields. */
  datatype DownloadOutcome =
      /** Downloading, writing the temp file or unpickling raised. */
    | DownloadFailed
      /** The database was unpickled; removing the temp file afterwards may still raise. */
    | Downloaded(db: Database, cleanupFailed: bool)

  // ---------------------------------------------------------------------
  // The per-class table.
  // ---------------------------------------------------------------------

  /**
   * The vector stored for one enrolled student, or `None` when the student is
   * skipped: the profile lookup raised, the full name is not in the database,
   * the stored value cannot be flattened, or it does not have 128 numbers.
   */
  function StoredVector(db: Database, fullNames: map<StudentId, string>, sid: StudentId): (r: Option<seq<real>>)
    ensures r.Some? ==> |r.value| == EmbeddingDim
  {
    if sid !in fullNames || fullNames[sid] !in db then None
    else match Flatten(db[fullNames[sid]])
      case None => None
      case Some(v) => if |v| != EmbeddingDim then None else Some(v)
  }

  /** The table `get_embeddings_for_class` returns after visiting `studentIds` in order. */
  function ClassTable(db: Database, studentIds: seq<StudentId>, fullNames: map<StudentId, string>): (r: seq<Entry<RawVector>>)
    ensures |r| <= |studentIds|
    decreases |studentIds|
  {
    if studentIds == [] then []
    else
      var rest := ClassTable(db, studentIds[..|studentIds| - 1], fullNames);
      var sid := studentIds[|studentIds| - 1];
      match StoredVector(db, fullNames, sid)
      case None => rest
      case Some(v) => Put(rest, sid, Vector(v))
  }

  /**
   * A student is in the table exactly when enrolled and usable; whether one
   * student is skipped depends on that student alone.
   */
  lemma {:induction false} ClassTableMembers(db: Database, studentIds: seq<StudentId>, fullNames: map<StudentId, string>)
    ensures forall sid :: sid in KeySet(ClassTable(db, studentIds, fullNames)) <==>
      sid in studentIds && StoredVector(db, fullNames, sid).Some?
    decreases |studentIds|
  {
    if studentIds != [] {
      var n := |studentIds| - 1;
      ClassTableMembers(db, studentIds[..n], fullNames);
      assert studentIds == studentIds[..n] + [studentIds[n]];
      assert forall x :: x in studentIds <==> x in studentIds[..n] || x == studentIds[n];
    }
  }

  /**
   * Every stored value is the flat 128-number vector of that student's
   * database entry: never truncated, padded or taken from another student.
   */
  lemma {:induction false} ClassTableValues(db: Database, studentIds: seq<StudentId>, fullNames: map<StudentId, string>)
    ensures forall e :: e in ClassTable(db, studentIds, fullNames) ==>
      && StoredVector(db, fullNames, e.id).Some?
      && e.value == Vector(StoredVector(db, fullNames, e.id).value)
      && |e.value.values| == EmbeddingDim
    decreases |studentIds|
  {
    if studentIds != [] {
      ClassTableValues(db, studentIds[..|studentIds| - 1], fullNames);
    }
  }

  /** The table is a dict (no key twice) whose keys follow the enrollment order. */
  lemma {:induction false} ClassTableOrder(db: Database, studentIds: seq<StudentId>, fullNames: map<StudentId, string>)
    ensures DistinctIds(ClassTable(db, studentIds, fullNames))
    ensures IsSubsequence(Ids(ClassTable(db, studentIds, fullNames)), studentIds)
    decreases |studentIds|
  {
    if studentIds != [] {
      var n := |studentIds| - 1;
      var rest := ClassTable(db, studentIds[..n], fullNames);
      ClassTableOrder(db, studentIds[..n], fullNames);
      SubsequenceAppend(Ids(rest), studentIds[..n], studentIds[n]);
      assert studentIds[..n] + [studentIds[n]] == studentIds;
    }
  }

  /** An empty database (a failed download) gives an empty table, which the route turns into a 404. */
  lemma {:induction false} EmptyDatabaseEmptyTable(studentIds: seq<StudentId>, fullNames: map<StudentId, string>)
    ensures ClassTable(map[], studentIds, fullNames) == []
    decreases |studentIds|
  {
    if studentIds != [] {
      EmptyDatabaseEmptyTable(studentIds[..|studentIds| - 1], fullNames);
    }
  }

  // ---------------------------------------------------------------------
  // The loader object and its cache.
  // ---------------------------------------------------------------------

  class Loader {
    /** `embeddings_cache`: `None` until a database has been unpickled. */
    var embeddingsCache: Option<Database>
    /** `loaded`: set only by a load that completed without raising. */
    var loaded: bool

    constructor ()
      ensures embeddingsCache == None && !loaded
    {
      embeddingsCache := None;
      loaded := false;
    }

    /**
     * `load_embeddings_database`: a cached database is returned without
     * downloading; otherwise the outcome of the download decides. A failure
     * returns `{}` and leaves the cache empty, so the next call retries; a
     * failure after unpickling keeps the unpickled database cached but leaves
     * `loaded` unset.
     */
    method LoadEmbeddingsDatabase(outcome: DownloadOutcome) returns (db: Database)
      modifies this
      ensures old(embeddingsCache).Some? ==>
        db == old(embeddingsCache).value && embeddingsCache == old(embeddingsCache) && loaded == old(loaded)
      ensures old(embeddingsCache).None? && outcome.DownloadFailed? ==>
        db == map[] && embeddingsCache == None && loaded == old(loaded)
      ensures old(embeddingsCache).None? && outcome.Downloaded? && !outcome.cleanupFailed ==>
        db == outcome.db && embeddingsCache == Some(outcome.db) && loaded
      ensures old(embeddingsCache).None? && outcome.Downloaded? && outcome.cleanupFailed ==>
        db == map[] && embeddingsCache == Some(outcome.db) && loaded == old(loaded)
    {
      if embeddingsCache.Some? {
        return embeddingsCache.value;
      }
      match outcome
      case DownloadFailed =>
        db := map[];
      case Downloaded(unpickled, cleanupFailed) =>
        embeddingsCache := Some(unpickled);
        if cleanupFailed {
          db := map[];  // os.remove raised after the cache was set
        } else {
          loaded := true;
          db := embeddingsCache.value;
        }
    }

    /**
     * `get_embeddings_for_class`: load (or reuse) the database, then keep
     * each enrolled student whose full name has a stored 128-number vector.
     * A student whose lookup fails is skipped and the loop goes on.
     */
    method GetEmbeddingsForClass(outcome: DownloadOutcome, studentIds: seq<StudentId>,
                                 fullNames: map<StudentId, string>)
      returns (table: seq<Entry<RawVector>>)
      modifies this
      ensures old(embeddingsCache).Some? ==>
        table == ClassTable(old(embeddingsCache).value, studentIds, fullNames) &&
        embeddingsCache == old(embeddingsCache) && loaded == old(loaded)
      ensures old(embeddingsCache).None? && outcome.DownloadFailed? ==>
        table == [] && embeddingsCache == None && loaded == old(loaded)
      ensures old(embeddingsCache).None? && outcome.Downloaded? && !outcome.cleanupFailed ==>
        table == ClassTable(outcome.db, studentIds, fullNames) &&
        embeddingsCache == Some(outcome.db) && loaded
      ensures old(embeddingsCache).None? && outcome.Downloaded? && outcome.cleanupFailed ==>
        table == [] && embeddingsCache == Some(outcome.db) && loaded == old(loaded)
    {
      var allEmbeddings := LoadEmbeddingsDatabase(outcome);
      var result: seq<Entry<RawVector>> := [];
      for i := 0 to |studentIds|
        invariant result == ClassTable(allEmbeddings, studentIds[..i], fullNames)
      {
        assert studentIds[..i + 1][..i] == studentIds[..i];
        var studentId := studentIds[i];
        if studentId !in fullNames {
          continue;  // the profile query raised
        }
        var studentName := fullNames[studentId];
        if studentName in allEmbeddings {
          var embeddingArray := Flatten(allEmbeddings[studentName]);
          if embeddingArray.None? {
            continue;  // numpy raised
          }
          if |embeddingArray.value| != EmbeddingDim {
            continue;  // wrong size: skipped, never truncated or padded
          }
          result := Put(result, studentId, Vector(embeddingArray.value));
        }
      }
      assert studentIds[..|studentIds|] == studentIds;
      table := result;
      if allEmbeddings == map[] {
        EmptyDatabaseEmptyTable(studentIds, fullNames);
      }
    }
  }
}
