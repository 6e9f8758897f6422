/**
  The storage nodes as the control plane sees them: what each holds for a version, and calls that
  may succeed, fail, or fail after taking effect.
 */
module Cluster {
  import opened Base
  import opened Tables

  /** Stored bytes; `sound` is whether the node's own verification accepts their layout. */
  datatype Blob = Blob(data: Bytes, sound: bool)

  type Disks = map<(NodeId, VersionId), Blob>

  /** How a read-only call goes. `Dies` is a crash, or an exception that no handler knows. */
  datatype Reach = Reached | Unreachable | Dies

  /** How a DELETE goes; `effect` is whether the bytes are gone although no success was reported. */
  datatype Deletion = DeleteDone | DeleteFails(effect: bool) | DeleteDies(effect: bool)

  /** How a PUT goes, and the blob that reaches the disk, if any. */
  datatype Upload = Uploaded(blob: Blob) | UploadFails(effect: Option<Blob>) | UploadDies(effect: Option<Blob>)

  datatype Measurement =
    | Measured(valid: bool, checksum: string, size: nat)
    | Missing
    | Invalid
    | NoAnswer
    | Died

  datatype CallResult = Answered | Refused | Gone

  /** The node holds bytes with the version's checksum and size. */
  predicate Intact(hash: Hash, disks: Disks, n: NodeId, v: VersionId, version: Version) {
    && (n, v) in disks && disks[(n, v)].sound
    && hash(disks[(n, v)].data) == version.checksum && |disks[(n, v)].data| == version.size
  }

  /** The manager's test of a measurement against metadata. */
  predicate Agrees(measured: Measurement, version: Version) {
    measured.Measured? && measured.valid && measured.checksum == version.checksum && measured.size == version.size
  }

  // ----- The safety invariant

  /** A HEALTHY row names a node that holds the version. */
  ghost predicate Backed(hash: Hash, db: Tables, disks: Disks, r: ReplicaId) {
    r in db.replicas && db.replicas[r].status == Healthy ==>
      db.replicas[r].version in db.versions &&
      Intact(hash, disks, db.replicas[r].node, db.replicas[r].version, db.versions[db.replicas[r].version])
  }

  ghost predicate Safe(hash: Hash, db: Tables, disks: Disks) {
    forall r :: Backed(hash, db, disks, r)
  }

  class Cluster {
    const hash: Hash
    var disks: Disks

    ghost predicate Valid() {
      YieldsDigests(hash)
    }

    constructor (hash: Hash)
      ensures this.hash == hash && disks == map[]
    {
      this.hash := hash;
      disks := map[];
    }

    /** The node measures what it holds. An invalid object raises unless the caller asks for the measurement. */
    method Verify(n: NodeId, v: VersionId, reach: Reach, raiseOnInvalid: bool) returns (m: Measurement)
      ensures m == Measure(hash, disks, n, v, reach, raiseOnInvalid)
    {
      if reach == Dies {
        return Died;
      }
      if reach == Unreachable {
        return NoAnswer;
      }
      if (n, v) !in disks {
        return Missing;
      }
      var blob := disks[(n, v)];
      if !blob.sound && raiseOnInvalid {
        return Invalid;
      }
      m := Measured(blob.sound, hash(blob.data), |blob.data|);
    }

    /** DELETE is idempotent: an absent object counts as deleted. */
    method Delete(n: NodeId, v: VersionId, how: Deletion) returns (r: CallResult)
      modifies `disks
      ensures r == match how case DeleteDone => Answered case DeleteFails(_) => Refused case DeleteDies(_) => Gone
      ensures disks == if how.DeleteDone? || how.effect then old(disks) - {(n, v)} else old(disks)
    {
      if how.DeleteDone? || how.effect {
        disks := disks - {(n, v)};
      }
      r := match how case DeleteDone => Answered case DeleteFails(_) => Refused case DeleteDies(_) => Gone;
    }

    /** PUT never overwrites: an existing object answers with a conflict, whatever was sent. */
    method Put(n: NodeId, v: VersionId, how: Upload) returns (r: CallResult, conflict: bool)
      modifies `disks
      ensures conflict == ((n, v) in old(disks) && how.Uploaded?)
      ensures r == match how
                   case Uploaded(_) => if conflict then Refused else Answered
                   case UploadFails(_) => Refused
                   case UploadDies(_) => Gone
      ensures disks == AfterPut(old(disks), n, v, how)
    {
      conflict := (n, v) in disks && how.Uploaded?;
      r := match how
           case Uploaded(_) => if conflict then Refused else Answered
           case UploadFails(_) => Refused
           case UploadDies(_) => Gone;
      if (n, v) !in disks {
        if how.Uploaded? {
          disks := disks[(n, v) := how.blob];
        } else if how.effect.Some? {
          disks := disks[(n, v) := how.effect.value];
        }
      }
    }
  }

  function Measure(hash: Hash, disks: Disks, n: NodeId, v: VersionId, reach: Reach, raiseOnInvalid: bool): Measurement {
    if reach == Dies then Died
    else if reach == Unreachable then NoAnswer
    else if (n, v) !in disks then Missing
    else if !disks[(n, v)].sound && raiseOnInvalid then Invalid
    else Measured(disks[(n, v)].sound, hash(disks[(n, v)].data), |disks[(n, v)].data|)
  }

  function AfterPut(disks: Disks, n: NodeId, v: VersionId, how: Upload): Disks {
    if (n, v) in disks then disks
    else if how.Uploaded? then disks[(n, v) := how.blob]
    else if how.effect.Some? then disks[(n, v) := how.effect.value]
    else disks
  }

  /** Honest measurements agree exactly with intact bytes. */
  lemma AgreesIsIntact(hash: Hash, disks: Disks, n: NodeId, v: VersionId, reach: Reach, raiseOnInvalid: bool,
                       version: Version)
    ensures Agrees(Measure(hash, disks, n, v, reach, raiseOnInvalid), version) <==>
            reach == Reached && Intact(hash, disks, n, v, version)
  {
  }

  /** What a node holds for a version has not changed. */
  predicate SameAt(before: Disks, now: Disks, k: (NodeId, VersionId)) {
    (k in before <==> k in now) && (k in before ==> now[k] == before[k])
  }

  /** The bytes of one version on one node change only there. */
  predicate ChangedAt(before: Disks, after: Disks, n: NodeId, v: VersionId) {
    before - {(n, v)} == after - {(n, v)}
  }

  lemma IntactElsewhere(hash: Hash, before: Disks, after: Disks, n: NodeId, v: VersionId, m: NodeId, w: VersionId,
                        version: Version)
    requires ChangedAt(before, after, n, v) && (m, w) != (n, v)
    ensures Intact(hash, before, m, w, version) <==> Intact(hash, after, m, w, version)
  {
    assert (m, w) in before <==> (m, w) in before - {(n, v)};
    assert (m, w) in after <==> (m, w) in after - {(n, v)};
  }

  /** Touching bytes where no HEALTHY row points is safe. */
  lemma SafeElsewhere(hash: Hash, db: Tables, before: Disks, after: Disks, n: NodeId, v: VersionId)
    requires Safe(hash, db, before) && ChangedAt(before, after, n, v)
    requires forall r :: r in db.replicas && db.replicas[r].version == v && db.replicas[r].node == n ==>
               db.replicas[r].status != Healthy
    ensures Safe(hash, db, after)
  {
    forall r ensures Backed(hash, db, after, r) {
      assert Backed(hash, db, before, r);
      if r in db.replicas && db.replicas[r].status == Healthy && db.replicas[r].version in db.versions {
        IntactElsewhere(hash, before, after, n, v, db.replicas[r].node, db.replicas[r].version,
                        db.versions[db.replicas[r].version]);
      }
    }
  }

  /** Rows that change, but become HEALTHY only where the bytes are right. */
  lemma SafeRows(hash: Hash, before: Tables, after: Tables, disks: Disks)
    requires Safe(hash, before, disks) && before.versions == after.versions
    requires forall r :: r in after.replicas && after.replicas[r].status == Healthy ==>
               (r in before.replicas && before.replicas[r].status == Healthy
                && after.replicas[r].version == before.replicas[r].version
                   && after.replicas[r].node == before.replicas[r].node)
               || Backed(hash, after, disks, r)
    ensures Safe(hash, after, disks)
  {
    forall r ensures Backed(hash, after, disks, r) {
      assert Backed(hash, before, disks, r);
    }
  }

  lemma SameRowsSafe(hash: Hash, before: Tables, after: Tables, disks: Disks)
    requires before.replicas == after.replicas && before.versions == after.versions
    ensures Safe(hash, before, disks) ==> Safe(hash, after, disks)
  {
    if Safe(hash, before, disks) {
      SafeRows(hash, before, after, disks);
    }
  }

  /** Versions may come and change state, as long as their checksums and sizes stay. */
  lemma SafeVersions(hash: Hash, before: Tables, after: Tables, disks: Disks)
    requires before.replicas == after.replicas
    requires forall v :: v in before.versions ==>
               v in after.versions && after.versions[v].checksum == before.versions[v].checksum
                 && after.versions[v].size == before.versions[v].size
    ensures Safe(hash, before, disks) ==> Safe(hash, after, disks)
  {
    if Safe(hash, before, disks) {
      forall r ensures Backed(hash, after, disks, r) {
        assert Backed(hash, before, disks, r);
      }
    }
  }
}
