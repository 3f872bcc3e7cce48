/** `_move_to_failed`: a metadata file whose cleanup failed is annotated, written under a
    fresh name into the directory of failed cleanups, and only then removed. */
module FailedCleanup {
  import opened Common

  /** A metadata file: a JSON object and its failure note, or something else. */
  datatype File = Json(fields: map<string, string>, error: Option<string>) | Unreadable

  datatype WriteFault = Written | NothingWritten | PartWritten
  datatype Faults = Faults(readFails: bool, write: WriteFault, unlinkFails: bool)

  /** The metadata file, if it is there, and the directory of failed cleanups. */
  datatype Disk = Disk(original: Option<File>, failed: map<string, File>)

  function LastDot(name: string): Option<nat> {
    if name == "" then None
    else if name[|name| - 1] == '.' then Some(|name| - 1)
    else LastDot(name[..|name| - 1])
  }

  /** `Path.stem`: the name without its last suffix. */
  function Stem(name: string): (s: string)
    ensures s <= name && (s != name ==> |s| < |name| && name[|s|] == '.')
  {
    match LastDot(name)
    case Some(i) =>
      LastDotIsDot(name);
      if 0 < i < |name| - 1 then name[..i] else name
    case None => name
  }

  lemma {:induction false} LastDotIsDot(name: string)
    ensures LastDot(name).Some? ==> LastDot(name).value < |name| && name[LastDot(name).value] == '.'
  {
    if name != "" && name[|name| - 1] != '.' {
      LastDotIsDot(name[..|name| - 1]);
    }
  }

  lemma {:induction false} LastDotAt(base: string, ext: string)
    requires '.' !in ext
    ensures LastDot(base + "." + ext) == Some(|base|)
  {
    var name := base + "." + ext;
    if ext == "" {
      assert name[|name| - 1] == '.';
    } else {
      var n := |ext| - 1;
      assert name[|name| - 1] == ext[n] && ext[n] in ext;
      assert name[..|name| - 1] == base + "." + ext[..n];
      LastDotAt(base, ext[..n]);
    }
  }

  /** The stem is what precedes the last dot, if neither side of it is empty. */
  lemma StemCuts(base: string, ext: string)
    requires '.' !in ext
    ensures Stem(base + "." + ext) == if base != "" && ext != "" then base else base + "." + ext
    ensures Stem(ext) == ext
  {
    LastDotAt(base, ext);
    assert (base + "." + ext)[..|base|] == base;
    LastDotIsDot(ext);
  }

  /** The `k`-th name that is tried. */
  function Candidate(name: string, k: nat): string {
    if k == 0 then name else Stem(name) + "_" + Digits(k) + ".json"
  }

  lemma CandidatesDiffer(name: string, j: nat, k: nat)
    requires j < k
    ensures Candidate(name, j) != Candidate(name, k)
  {
    var s := Stem(name);
    assert Candidate(name, k)[|s|] == '_';
    if j == 0 {
      assert s == name || name[|s|] == '.';
    } else {
      var a, b := Candidate(name, j), Candidate(name, k);
      if a == b {
        assert |Digits(j)| == |Digits(k)|;
        assert Digits(j) == a[|s| + 1..|s| + 1 + |Digits(j)|];
        assert Digits(k) == b[|s| + 1..|s| + 1 + |Digits(k)|];
        DigitsInjective(j, k);
      }
    }
  }

  lemma {:induction false} SubsetSize<T>(a: set<T>, b: set<T>)
    requires a <= b
    ensures |a| <= |b|
  {
    if x :| x in a {
      SubsetSize(a - {x}, b - {x});
    }
  }

  lemma {:induction false} Pigeonhole(f: nat -> string, k: nat, existing: set<string>) returns (used: set<string>)
    requires forall i, j :: 0 <= i < j < k ==> f(i) != f(j)
    requires forall j :: 0 <= j < k ==> f(j) in existing
    ensures used == (set j | 0 <= j < k :: f(j)) && |used| == k <= |existing|
  {
    used := set j | 0 <= j < k :: f(j);
    if k > 0 {
      var less := Pigeonhole(f, k - 1, existing);
      assert f(k - 1) !in less && used == less + {f(k - 1)};
    }
    SubsetSize(used, existing);
  }

  /** `k` names that were found taken are `k` files of the directory. */
  lemma TriedNames(name: string, k: nat, existing: set<string>)
    requires forall j :: 0 <= j < k ==> Candidate(name, j) in existing
    ensures |set j | 0 <= j < k :: Candidate(name, j)| == k <= |existing|
  {
    var names := (j: nat) => Candidate(name, j);
    forall i, j | 0 <= i < j < k ensures names(i) != names(j) {
      CandidatesDiffer(name, i, j);
    }
    var used := Pigeonhole(names, k, existing);
    var tried := set j | 0 <= j < k :: Candidate(name, j);
    forall x ensures x in used <==> x in tried {
      if x in tried {
        var j :| 0 <= j < k && Candidate(name, j) == x;
        assert names(j) in used;
      }
    }
    assert used == tried;
  }

  /** `dest` is the first candidate that is not taken. */
  ghost predicate FirstFree(name: string, failed: map<string, File>, dest: string) {
    dest !in failed && exists k: nat :: dest == Candidate(name, k) && forall j :: 0 <= j < k ==> Candidate(name, j) in failed
  }

  lemma NamesTaken(name: string, failed: map<string, File>, k: nat)
    requires forall j :: 0 <= j < k ==> Candidate(name, j) in failed
    ensures k <= |failed|
  {
    TriedNames(name, k, failed.Keys);
    assert |failed.Keys| == |failed|;
  }

  lemma NameFound(name: string, failed: map<string, File>, k: nat)
    requires Candidate(name, k) !in failed && forall j :: 0 <= j < k ==> Candidate(name, j) in failed
    ensures FirstFree(name, failed, Candidate(name, k)) && k <= |failed|
    ensures Candidate(name, k) == name || NumberedName(name, Candidate(name, k))
  {
    NamesTaken(name, failed, k);
    CandidateNames(name, k);
  }

  /** What is written: the metadata that could be read, with the failure noted. */
  function Annotated(original: Option<File>, reason: string, readFails: bool): File {
    if !readFails && original.Some? && original.value.Json? then original.value.(error := Some(reason))
    else Json(map[], Some(reason))
  }

  function AfterWrite(d: Disk, dest: string, reason: string, f: Faults): Disk {
    match f.write
    case Written => d.(failed := d.failed[dest := Annotated(d.original, reason, f.readFails)])
    case NothingWritten => d
    case PartWritten => d.(failed := d.failed[dest := Unreadable])
  }

  function AfterUnlink(d: Disk, f: Faults): Disk {
    if f.write.Written? && !f.unlinkFails then d.(original := None) else d
  }

  /** Record `r` notes the failure, beside the fields of an original that was read as JSON. */
  predicate Noted(r: File, original: Option<File>, reason: string, readFails: bool) {
    r.Json? && r.error == Some(reason) &&
    match original
    case Some(Json(fields, _)) => r.fields == if readFails then map[] else fields
    case _ => r.fields == map[]
  }

  /** The metadata `fields` can be read from the original or from the new record. */
  predicate Readable(d: Disk, dest: string, fields: map<string, string>) {
    || (d.original.Some? && d.original.value.Json? && d.original.value.fields == fields)
    || (dest in d.failed && d.failed[dest].Json? && d.failed[dest].fields == fields)
  }

  /** Every record of failed cleanups that `d` holds is in `d'` as it was. */
  ghost predicate KeepsRecords(d: Disk, d': Disk) {
    forall n :: n in d.failed ==> n in d'.failed && d'.failed[n] == d.failed[n]
  }

  /** What writing to a free name and removing the original leave, at both points. */
  lemma BothPointsAreSafe(d: Disk, dest: string, reason: string, f: Faults)
    requires dest !in d.failed
    ensures var written := AfterWrite(d, dest, reason, f);
            var end := AfterUnlink(written, f);
            && KeepsRecords(d, written) && KeepsRecords(d, end)
            && (d.original.Some? && d.original.value.Json? && !f.readFails ==>
                  Readable(written, dest, d.original.value.fields) && Readable(end, dest, d.original.value.fields))
  {
  }

  ghost predicate NumberedName(name: string, dest: string) {
    exists k: nat :: k >= 1 && Numbered(name, dest, k)
  }

  predicate Numbered(name: string, dest: string, k: nat) {
    dest == Stem(name) + "_" + Digits(k) + ".json"
  }

  lemma CandidateNames(name: string, k: nat)
    ensures Candidate(name, k) == name || NumberedName(name, Candidate(name, k))
  {
    if k > 0 {
      assert Numbered(name, Candidate(name, k), k);
    }
  }

  class Metadata {
    var disk: Disk
    ghost var trace: seq<Disk>  // the disk after every change, oldest first

    constructor (disk: Disk)
      ensures this.disk == disk && trace == []
    {
      this.disk, trace := disk, [];
    }

    method MoveToFailed(name: string, reason: string, f: Faults) returns (dest: string, checks: nat)
      modifies this
      ensures FirstFree(name, old(disk.failed), dest)
      ensures checks <= |old(disk.failed)| + 1
      ensures var written := AfterWrite(old(disk), dest, reason, f);
              disk == AfterUnlink(written, f) && trace == old(trace) + [written, disk]
      ensures dest == name || NumberedName(name, dest)
      // A record that was written holds the reason, and the metadata if it could be read.
      ensures f.write.Written? ==> dest in disk.failed && Noted(disk.failed[dest], old(disk.original), reason, f.readFails)
      // A write that fails leaves the original, and at most an unreadable file under the new name.
      ensures f.write.PartWritten? ==> disk == old(disk).(failed := old(disk.failed)[dest := Unreadable])
      ensures f.write.NothingWritten? ==> disk == old(disk)
      ensures disk.original == if f.write.Written? && !f.unlinkFails then None else old(disk.original)
      // No earlier record is ever overwritten.
      ensures forall d :: d in trace[|old(trace)|..] ==> KeepsRecords(old(disk), d)
      // Metadata that could be read stays readable at every point.
      ensures old(disk.original).Some? && old(disk.original).value.Json? && !f.readFails ==>
                forall d :: d in trace[|old(trace)|..] ==> Readable(d, dest, old(disk.original).value.fields)
    {
      dest := name;
      checks := 1;
      var counter := 1;
      assert dest == Candidate(name, 0);
      while dest in disk.failed
        invariant counter >= 1 && checks == counter && disk == old(disk) && trace == old(trace)
        invariant dest == Candidate(name, counter - 1)
        invariant forall j :: 0 <= j < counter - 1 ==> Candidate(name, j) in disk.failed
        decreases |disk.failed| + 1 - counter
      {
        NamesTaken(name, disk.failed, counter);
        dest := Stem(name) + "_" + Digits(counter) + ".json";
        counter := counter + 1;
        checks := checks + 1;
      }
      NameFound(name, disk.failed, counter - 1);
      var meta := Annotated(disk.original, reason, f.readFails);
      match f.write {
        case Written => disk := disk.(failed := disk.failed[dest := meta]);
        case PartWritten => disk := disk.(failed := disk.failed[dest := Unreadable]);
        case NothingWritten =>
      }
      trace := trace + [disk];
      if f.write.Written? && !f.unlinkFails {
        disk := disk.(original := None);
      }
      trace := trace + [disk];
      BothPointsAreSafe(old(disk), dest, reason, f);
      assert trace[|old(trace)|..] == [AfterWrite(old(disk), dest, reason, f), disk];
    }
  }

  /** The exact condition for keeping the metadata of a readable original: it is still
      readable at the end if and only if it could be read, was empty, or the original was
      not removed because the write or the removal failed. */
  lemma MetadataSurvivesIff(d: Disk, dest: string, reason: string, f: Faults)
    requires d.original.Some? && d.original.value.Json? && dest !in d.failed
    ensures Readable(AfterUnlink(AfterWrite(d, dest, reason, f), f), dest, d.original.value.fields)
            <==> !f.readFails || d.original.value.fields == map[] || !f.write.Written? || f.unlinkFails
  {
  }

  /** A read that fails for a moment loses the metadata: an empty record is written and the
      readable original is removed. */
  lemma FailedReadLosesMetadata(dest: string, reason: string)
    ensures var d := Disk(Some(Json(map["sid" := "S-1"], None)), map[]);
            var f := Faults(true, Written, false);
            !Readable(AfterUnlink(AfterWrite(d, dest, reason, f), f), dest, map["sid" := "S-1"])
  {
    assert "sid" in map["sid" := "S-1"];
  }
}
