/**
 * `zip_dir(src_dir, out_zip)`: walk everything `src_dir.rglob("*")` yields,
 * and write each regular file into the archive under its path relative to
 * `src_dir`, joined with `/`.
 *
 * The walk itself and the compression belong to the filesystem and to
 * `zipfile`; here the walk is the sequence of entries it yields, in its
 * order, and the archive is the sequence of members written.
 */
module Archive {
  import opened Results
  import opened Paths

  /** One path the recursive walk yields, and whether `is_file()` holds for it. */
  datatype Entry = Entry(path: Path, isFile: bool)

  /** One archive member: its name in the archive and the file it is read from. */
  datatype Member = Member(arcname: string, source: Path)

  /** Every path the walk of `src` yields lies strictly below `src`. */
  predicate WalkOf(src: Path, entries: seq<Entry>)
  {
    forall i :: 0 <= i < |entries| ==> IsBelow(entries[i].path, src)
  }

  /** `p.relative_to(src).as_posix()` for a path below `src`. */
  function ArcName(src: Path, p: Path): (r: string)
    requires IsBelow(p, src)
  {
    RelativeToBelow(p, src);
    AsPosix(RelativeTo(p, src).value)
  }

  /** The member written for a file entry. */
  function MemberFor(src: Path, e: Entry): (r: Member)
    requires IsBelow(e.path, src)
  {
    Member(ArcName(src, e.path), e.path)
  }

  /** The members written for a walk: one per regular file, in the walk's order. */
  function Archived(src: Path, entries: seq<Entry>): (r: seq<Member>)
    requires WalkOf(src, entries)
    decreases |entries|
  {
    if entries == [] then []
    else
      var last := entries[|entries| - 1];
      Archived(src, entries[..|entries| - 1]) + (if last.isFile then [MemberFor(src, last)] else [])
  }

  /** The loop of `zip_dir`: the members it writes, and `out_zip`, which it returns. */
  method ZipDir(src: Path, outZip: Path, entries: seq<Entry>) returns (written: seq<Member>, result: Path)
    requires WalkOf(src, entries)
    ensures written == Archived(src, entries)
    ensures result == outZip
  {
    written := [];
    var i := 0;
    while i < |entries|
      invariant 0 <= i <= |entries|
      invariant written == Archived(src, entries[..i])
    {
      var p := entries[i];
      assert entries[..i + 1][..i] == entries[..i];
      if p.isFile {
        written := written + [Member(ArcName(src, p.path), p.path)];
      }
      i := i + 1;
    }
    assert entries[..i] == entries;
    result := outZip;
  }

  /** The archive holds a member exactly for each regular file of the walk, and nothing else. */
  lemma {:induction false} ArchivedOnlyFiles(src: Path, entries: seq<Entry>, m: Member)
    requires WalkOf(src, entries)
    ensures m in Archived(src, entries) <==> exists e :: e in entries && e.isFile && m == MemberFor(src, e)
    decreases |entries|
  {
    if entries != [] {
      var front := entries[..|entries| - 1];
      var last := entries[|entries| - 1];
      ArchivedOnlyFiles(src, front, m);
      assert entries == front + [last];
      if exists e :: e in entries && e.isFile && m == MemberFor(src, e) {
        var e :| e in entries && e.isFile && m == MemberFor(src, e);
        if e != last {
          assert e in front;
        }
      }
    }
  }

  /** A member's name is the file's components below `src`, joined with `/`: splitting the name at `/` and appending the pieces to `src` gives the file's path back. */
  lemma {:induction false} ArcNameRecoversPath(src: Path, p: Path)
    requires IsBelow(p, src) && WellFormed(p)
    ensures ArcName(src, p) == JoinSlash(p.parts[|src.parts|..])
    ensures Path(src.absolute, src.parts + SplitSlash(ArcName(src, p))) == p
  {
    RelativeToBelow(p, src);
    var rel := p.parts[|src.parts|..];
    forall k | 0 <= k < |rel| ensures '/' !in rel[k] {
      assert rel[k] == p.parts[|src.parts| + k];
    }
    SplitJoinSlash(rel);
  }

  /** Two different files below `src` never share an archive name. */
  lemma {:induction false} ArcNameInjective(src: Path, p: Path, q: Path)
    requires IsBelow(p, src) && WellFormed(p) && IsBelow(q, src) && WellFormed(q)
    requires ArcName(src, p) == ArcName(src, q)
    ensures p == q
  {
    ArcNameRecoversPath(src, p);
    ArcNameRecoversPath(src, q);
  }
}
