/** The upload side of `FTPSession`: the server's files, the session's
    listing of them (`@list`), and how `put` keeps previous versions of a
    file as `name.0`, `name.1`, ... by renaming them one step down the chain
    and dropping the oldest (`move_old_file`). File contents are a type
    parameter: the session never looks at them. */
module Rotation {
  import opened Strings

  /** The remote directory and the listing the session keeps of it. */
  datatype Session<B> = Session(remote: map<string, B>, listed: set<string>)

  /** The listing names exactly the files on the server. It holds for the
      listing taken at login (line 12) and every operation keeps it. */
  ghost predicate InSync<B>(s: Session<B>) {
    s.listed == s.remote.Keys
  }

  // ---------------------------------------------------------- generations

  /** `"#{file}.#{depth}"`: the name of the `d`-th previous version. */
  function Generation(f: string, d: nat): string {
    f + "." + Decimal(d)
  }

  /** `old_name` in `move_old_file`: the file itself at depth 0, otherwise the
      previous generation. */
  function Prior(f: string, d: nat): string {
    if d == 0 then f else Generation(f, d - 1)
  }

  lemma GenerationInjective(f: string, a: nat, b: nat)
    requires Generation(f, a) == Generation(f, b)
    ensures a == b
  {
    var n := |f| + 1;
    assert Generation(f, a)[n..] == Decimal(a);
    assert Generation(f, b)[n..] == Decimal(b);
    DecimalInjective(a, b);
  }

  lemma GenerationIsNotBase(f: string, d: nat)
    ensures Generation(f, d) != f
  {
  }

  /** The name a step renames from is never a generation at or below it. */
  lemma PriorIsNotGeneration(f: string, d: nat, k: nat)
    requires d <= k
    ensures Prior(f, d) != Generation(f, k)
  {
    if d > 0 && Generation(f, d - 1) == Generation(f, k) {
      GenerationInjective(f, d - 1, k);
    }
  }

  // ------------------------------------------------------ server commands

  /** `rename` (lines 104-108): the server moves the file and the listing
      follows. */
  function Rename<B>(s: Session<B>, from: string, to: string): (r: Session<B>)
    requires from in s.remote && from != to
    ensures r.remote.Keys == s.remote.Keys - {from} + {to}
    ensures r.remote[to] == s.remote[from]
    ensures forall n | n in r.remote && n != to :: r.remote[n] == s.remote[n]
    ensures r.listed == s.listed - {from} + {to}
  {
    Session((s.remote - {from})[to := s.remote[from]], s.listed - {from} + {to})
  }

  /** `@session.delete` (line 117): the listing is not updated. */
  function Delete<B>(s: Session<B>, name: string): (r: Session<B>)
    ensures r.remote.Keys == s.remote.Keys - {name}
    ensures forall n | n in r.remote :: r.remote[n] == s.remote[n]
    ensures r.listed == s.listed
  {
    Session(s.remote - {name}, s.listed)
  }

  // ------------------------------------------------------- move_old_file

  /** Reference definition: the depth at which the chain of listed
      generations starting at `depth` ends, or the cap where the oldest
      version is dropped. */
  function StopDepth(listed: set<string>, f: string, depth: nat, max: nat): (r: nat)
    ensures depth <= r
    ensures depth <= max ==> r <= max
    ensures forall k | depth <= k < r :: Generation(f, k) in listed
    ensures Generation(f, r) in listed ==> r >= max
    decreases max - depth
  {
    if Generation(f, depth) !in listed || depth >= max then depth
    else StopDepth(listed, f, depth + 1, max)
  }

  /** `move_old_file` (lines 110-125): every listed generation from `depth`
      on moves one step down, up to the first free slot or the cap, where
      the oldest version is deleted; the file at `Prior(f, depth)` ends up
      as generation `depth`, and every other file is left alone. */
  function MoveOldFile<B>(s: Session<B>, f: string, depth: nat, max: nat): (r: Session<B>)
    requires InSync(s) && Prior(f, depth) in s.remote
    ensures InSync(r)
    ensures r.remote.Keys == s.remote.Keys - {Prior(f, depth)} + {Generation(f, StopDepth(s.listed, f, depth, max))}
    ensures forall k | depth <= k <= StopDepth(s.listed, f, depth, max) ::
              Generation(f, k) in r.remote && r.remote[Generation(f, k)] == s.remote[Prior(f, k)]
    ensures forall n | n in r.remote && n != Generation(f, StopDepth(s.listed, f, depth, max)) &&
                       (forall k | depth <= k < StopDepth(s.listed, f, depth, max) :: n != Generation(f, k)) ::
              n in s.remote && r.remote[n] == s.remote[n]
    decreases max - depth
  {
    var to := Generation(f, depth);
    var from := Prior(f, depth);
    PriorIsNotGeneration(f, depth, depth);
    if to in s.listed then
      if depth >= max then
        var r := Rename(Delete(s, to), from, to);
        MoveDropsOldest(s, f, depth, max, r);
        r
      else
        var moved := MoveOldFile(s, f, depth + 1, max);
        MoveKeepsPrior(s, f, depth, max, moved);
        var r := Rename(moved, from, to);
        MoveShiftsChain(s, f, depth, max, moved, r);
        r
    else
      var r := Rename(s, from, to);
      MoveIntoFreeSlot(s, f, depth, max, r);
      r
  }

  lemma MoveDropsOldest<B>(s: Session<B>, f: string, depth: nat, max: nat, r: Session<B>)
    requires InSync(s) && Prior(f, depth) in s.remote
    requires Generation(f, depth) in s.listed && depth >= max
    requires Prior(f, depth) != Generation(f, depth)
    requires r == Rename(Delete(s, Generation(f, depth)), Prior(f, depth), Generation(f, depth))
    ensures StopDepth(s.listed, f, depth, max) == depth
    ensures InSync(r)
    ensures r.remote.Keys == s.remote.Keys - {Prior(f, depth)} + {Generation(f, depth)}
    ensures r.remote[Generation(f, depth)] == s.remote[Prior(f, depth)]
    ensures forall n | n in r.remote && n != Generation(f, depth) :: n in s.remote && r.remote[n] == s.remote[n]
  {
  }

  lemma MoveIntoFreeSlot<B>(s: Session<B>, f: string, depth: nat, max: nat, r: Session<B>)
    requires InSync(s) && Prior(f, depth) in s.remote
    requires Generation(f, depth) !in s.listed
    requires Prior(f, depth) != Generation(f, depth)
    requires r == Rename(s, Prior(f, depth), Generation(f, depth))
    ensures StopDepth(s.listed, f, depth, max) == depth
    ensures InSync(r)
    ensures r.remote.Keys == s.remote.Keys - {Prior(f, depth)} + {Generation(f, depth)}
    ensures r.remote[Generation(f, depth)] == s.remote[Prior(f, depth)]
    ensures forall n | n in r.remote && n != Generation(f, depth) :: n in s.remote && r.remote[n] == s.remote[n]
  {
  }

  /** The deeper moves never touch the name this step renames from. */
  lemma MoveKeepsPrior<B>(s: Session<B>, f: string, depth: nat, max: nat, moved: Session<B>)
    requires InSync(s) && Prior(f, depth) in s.remote
    requires Generation(f, depth) in s.listed && depth < max
    requires InSync(moved)
    requires forall n | n in moved.remote && n != Generation(f, StopDepth(s.listed, f, depth + 1, max)) &&
                        (forall k | depth + 1 <= k < StopDepth(s.listed, f, depth + 1, max) :: n != Generation(f, k)) ::
               n in s.remote && moved.remote[n] == s.remote[n]
    requires moved.remote.Keys == s.remote.Keys - {Prior(f, depth + 1)} + {Generation(f, StopDepth(s.listed, f, depth + 1, max))}
    ensures Prior(f, depth) in moved.remote && moved.remote[Prior(f, depth)] == s.remote[Prior(f, depth)]
    ensures Generation(f, depth) !in moved.remote
  {
    var stop := StopDepth(s.listed, f, depth + 1, max);
    PriorIsNotGeneration(f, depth, stop);
    PriorIsNotGeneration(f, depth, depth);
    forall k | depth + 1 <= k < stop
      ensures Prior(f, depth) != Generation(f, k)
    {
      PriorIsNotGeneration(f, depth, k);
    }
    if Generation(f, depth) == Generation(f, stop) {
      GenerationInjective(f, depth, stop);
    }
  }

  lemma MoveShiftsChain<B>(s: Session<B>, f: string, depth: nat, max: nat, moved: Session<B>, r: Session<B>)
    requires InSync(s) && Prior(f, depth) in s.remote
    requires Generation(f, depth) in s.listed && depth < max
    requires InSync(moved)
    requires moved.remote.Keys == s.remote.Keys - {Prior(f, depth + 1)} + {Generation(f, StopDepth(s.listed, f, depth + 1, max))}
    requires forall k | depth + 1 <= k <= StopDepth(s.listed, f, depth + 1, max) ::
               Generation(f, k) in moved.remote && moved.remote[Generation(f, k)] == s.remote[Prior(f, k)]
    requires forall n | n in moved.remote && n != Generation(f, StopDepth(s.listed, f, depth + 1, max)) &&
                        (forall k | depth + 1 <= k < StopDepth(s.listed, f, depth + 1, max) :: n != Generation(f, k)) ::
               n in s.remote && moved.remote[n] == s.remote[n]
    requires Prior(f, depth) in moved.remote && moved.remote[Prior(f, depth)] == s.remote[Prior(f, depth)]
    requires Generation(f, depth) !in moved.remote
    requires Prior(f, depth) != Generation(f, depth)
    requires r == Rename(moved, Prior(f, depth), Generation(f, depth))
    ensures InSync(r)
    ensures r.remote.Keys == s.remote.Keys - {Prior(f, depth)} + {Generation(f, StopDepth(s.listed, f, depth, max))}
    ensures forall k | depth <= k <= StopDepth(s.listed, f, depth, max) ::
              Generation(f, k) in r.remote && r.remote[Generation(f, k)] == s.remote[Prior(f, k)]
    ensures forall n | n in r.remote && n != Generation(f, StopDepth(s.listed, f, depth, max)) &&
                       (forall k | depth <= k < StopDepth(s.listed, f, depth, max) :: n != Generation(f, k)) ::
              n in s.remote && r.remote[n] == s.remote[n]
  {
    var stop := StopDepth(s.listed, f, depth + 1, max);
    assert StopDepth(s.listed, f, depth, max) == stop;
    assert Prior(f, depth + 1) == Generation(f, depth);
    PriorIsNotGeneration(f, depth, stop);
    forall k | depth <= k <= stop
      ensures Prior(f, k) in s.remote
    {
      if k > depth {
        assert Generation(f, k - 1) in s.listed;
      }
    }
    ShiftedChain(s, f, depth, stop, moved, r);
    ShiftedOthers(s, f, depth, stop, moved, r);
  }

  lemma ShiftedChain<B>(s: Session<B>, f: string, depth: nat, stop: nat, moved: Session<B>, r: Session<B>)
    requires depth <= stop
    requires forall k | depth <= k <= stop :: Prior(f, k) in s.remote
    requires forall k | depth + 1 <= k <= stop ::
               Generation(f, k) in moved.remote && moved.remote[Generation(f, k)] == s.remote[Prior(f, k)]
    requires Prior(f, depth) in moved.remote && Prior(f, depth) in s.remote
    requires moved.remote[Prior(f, depth)] == s.remote[Prior(f, depth)]
    requires Prior(f, depth) != Generation(f, depth)
    requires r == Rename(moved, Prior(f, depth), Generation(f, depth))
    ensures forall k | depth <= k <= stop ::
              Generation(f, k) in r.remote && r.remote[Generation(f, k)] == s.remote[Prior(f, k)]
  {
    forall k | depth <= k <= stop
      ensures Generation(f, k) in r.remote && r.remote[Generation(f, k)] == s.remote[Prior(f, k)]
    {
      if k > depth {
        PriorIsNotGeneration(f, depth, k);
        if Generation(f, k) == Generation(f, depth) {
          GenerationInjective(f, k, depth);
        }
        assert r.remote[Generation(f, k)] == moved.remote[Generation(f, k)];
      }
    }
  }

  lemma ShiftedOthers<B>(s: Session<B>, f: string, depth: nat, stop: nat, moved: Session<B>, r: Session<B>)
    requires depth <= stop
    requires forall n | n in moved.remote && n != Generation(f, stop) &&
                        (forall k | depth + 1 <= k < stop :: n != Generation(f, k)) ::
               n in s.remote && moved.remote[n] == s.remote[n]
    requires Prior(f, depth) in moved.remote
    requires Prior(f, depth) != Generation(f, depth)
    requires r == Rename(moved, Prior(f, depth), Generation(f, depth))
    ensures forall n | n in r.remote && n != Generation(f, stop) &&
                       (forall k | depth <= k < stop :: n != Generation(f, k)) ::
              n in s.remote && r.remote[n] == s.remote[n]
  {
    forall n | n in r.remote && n != Generation(f, stop) && (forall k | depth <= k < stop :: n != Generation(f, k))
      ensures n in s.remote && r.remote[n] == s.remote[n]
    {
      assert n != Generation(f, depth);
      assert n in moved.remote && r.remote[n] == moved.remote[n];
    }
  }

  // ------------------------------------------------------------------ put

  /** `put` (lines 50-55): a file already listed is first rotated into
      generation 0, then the new content is uploaded under its name. */
  function Put<B>(s: Session<B>, f: string, content: B, max: nat): (r: Session<B>)
    requires InSync(s)
    ensures InSync(r)
    ensures f in r.remote && r.remote[f] == content
    ensures f !in s.remote ==> r.remote == s.remote[f := content]
    ensures f in s.remote ==>
              && r.remote.Keys == s.remote.Keys + {Generation(f, StopDepth(s.listed, f, 0, max))}
              && forall k | 0 <= k <= StopDepth(s.listed, f, 0, max) ::
                   Generation(f, k) in r.remote && r.remote[Generation(f, k)] == s.remote[Prior(f, k)]
    ensures forall n | n in r.remote && n != f && (forall k | 0 <= k :: n != Generation(f, k)) ::
              n in s.remote && r.remote[n] == s.remote[n]
  {
    if f in s.listed then
      var moved := MoveOldFile(s, f, 0, max);
      Session(moved.remote[f := content], moved.listed + {f})
    else
      Session(s.remote[f := content], s.listed + {f})
  }

  /** Uploading never removes a file from the server. */
  lemma PutKeepsNames<B>(s: Session<B>, f: string, content: B, max: nat)
    requires InSync(s)
    ensures s.remote.Keys <= Put(s, f, content, max).remote.Keys
  {
  }

  // ----------------------------------------------------- rotation bounds

  /** No generation of `f` beyond the cap exists. */
  ghost predicate Capped<B>(s: Session<B>, f: string, max: nat) {
    forall k: nat | Generation(f, k) in s.remote :: k <= max
  }

  /** The generations of `f` on the server form an unbroken run from 0, and
      there are none without the file itself. */
  ghost predicate Contiguous<B>(s: Session<B>, f: string) {
    && (Generation(f, 0) in s.remote ==> f in s.remote)
    && forall k: nat | Generation(f, k + 1) in s.remote :: Generation(f, k) in s.remote
  }

  /** An upload never creates a version of `f` beyond the cap `max`: any
      such version after it was already there before, whatever versions
      existed. */
  lemma PutAddsNothingBeyondCap<B>(s: Session<B>, f: string, content: B, max: nat)
    requires InSync(s)
    ensures forall k: nat | k > max && Generation(f, k) in Put(s, f, content, max).remote :: Generation(f, k) in s.remote
  {
    var r := Put(s, f, content, max);
    if f in s.remote {
      var stop := StopDepth(s.listed, f, 0, max);
      forall k: nat | k > max && Generation(f, k) in r.remote
        ensures Generation(f, k) in s.remote
      {
        if Generation(f, k) == Generation(f, stop) {
          GenerationInjective(f, k, stop);
        }
      }
    } else {
      forall k: nat | Generation(f, k) in r.remote
        ensures Generation(f, k) in s.remote
      {
        GenerationIsNotBase(f, k);
      }
    }
  }

  /** A server within the cap stays within it after an upload. */
  lemma PutKeepsCapped<B>(s: Session<B>, f: string, content: B, max: nat)
    requires InSync(s) && Capped(s, f, max)
    ensures Capped(Put(s, f, content, max), f, max)
  {
    var r := Put(s, f, content, max);
    if f in s.remote {
      var stop := StopDepth(s.listed, f, 0, max);
      forall k: nat | Generation(f, k) in r.remote
        ensures k <= max
      {
        if Generation(f, k) == Generation(f, stop) {
          GenerationInjective(f, k, stop);
        }
      }
    } else {
      forall k: nat | Generation(f, k) in r.remote
        ensures Generation(f, k) in s.remote
      {
        GenerationIsNotBase(f, k);
      }
    }
  }

  /** An upload keeps the versions of `f` numbered from 0 without gaps. */
  lemma PutKeepsContiguous<B>(s: Session<B>, f: string, content: B, max: nat)
    requires InSync(s) && Contiguous(s, f)
    ensures Contiguous(Put(s, f, content, max), f)
  {
    var r := Put(s, f, content, max);
    if f in s.remote {
      var stop := StopDepth(s.listed, f, 0, max);
      forall k: nat | Generation(f, k + 1) in r.remote
        ensures Generation(f, k) in r.remote
      {
        if Generation(f, k + 1) == Generation(f, stop) {
          GenerationInjective(f, k + 1, stop);
        }
      }
    } else {
      forall k: nat | Generation(f, k) in r.remote
        ensures Generation(f, k) in s.remote
      {
        GenerationIsNotBase(f, k);
      }
    }
  }

  /** Uploading the given contents of one file in turn. */
  function PutMany<B>(s: Session<B>, f: string, contents: seq<B>, max: nat): (r: Session<B>)
    requires InSync(s)
    ensures InSync(r)
    ensures |contents| > 0 ==> f in r.remote && r.remote[f] == contents[|contents| - 1]
    decreases |contents|
  {
    if |contents| == 0 then s
    else PutMany(Put(s, f, contents[0], max), f, contents[1..], max)
  }

  /** However many uploads, the versions of a file never exceed the cap. */
  lemma {:induction false} PutManyKeepsCapped<B>(s: Session<B>, f: string, contents: seq<B>, max: nat)
    requires InSync(s) && Capped(s, f, max)
    ensures Capped(PutMany(s, f, contents, max), f, max)
    decreases |contents|
  {
    if |contents| > 0 {
      PutKeepsCapped(s, f, contents[0], max);
      PutManyKeepsCapped(Put(s, f, contents[0], max), f, contents[1..], max);
    }
  }

  /** However many uploads, the versions of a file stay numbered without gaps. */
  lemma {:induction false} PutManyKeepsContiguous<B>(s: Session<B>, f: string, contents: seq<B>, max: nat)
    requires InSync(s) && Contiguous(s, f)
    ensures Contiguous(PutMany(s, f, contents, max), f)
    decreases |contents|
  {
    if |contents| > 0 {
      PutKeepsContiguous(s, f, contents[0], max);
      PutManyKeepsContiguous(Put(s, f, contents[0], max), f, contents[1..], max);
    }
  }

  /** Starting with no versions of `f`, any number of uploads leaves at most
      `max + 1` of them, numbered from 0 without gaps. */
  lemma FreshFileStaysBounded<B>(s: Session<B>, f: string, contents: seq<B>, max: nat)
    requires InSync(s) && f !in s.remote
    requires forall k: nat :: Generation(f, k) !in s.remote
    ensures Capped(PutMany(s, f, contents, max), f, max)
    ensures Contiguous(PutMany(s, f, contents, max), f)
  {
    PutManyKeepsCapped(s, f, contents, max);
    PutManyKeepsContiguous(s, f, contents, max);
  }

  // ---------------------------------------------------------- scenarios

  lemma GenerationNames(f: string)
    ensures Generation(f, 0) == f + ".0" && Generation(f, 1) == f + ".1"
  {
    assert Decimal(0) == "0" && Decimal(1) == "1";
  }

  /** With `max_previous_file_versions` at 1, three uploads of a file keep
      all three contents: the file and two previous versions. */
  lemma ThreeUploadsKeepEverything()
    ensures PutMany(Session(map[], {}), "x", [1, 2, 3], 1).remote == map["x" := 3, "x.0" := 2, "x.1" := 1]
  {
    GenerationNames("x");
    assert "x" + ".0" == "x.0" && "x" + ".1" == "x.1";
    var s0: Session<int> := Session(map[], {});
    var s1 := Put(s0, "x", 1, 1);
    assert s1.remote == map["x" := 1];
    var s2 := Put(s1, "x", 2, 1);
    assert StopDepth(s1.listed, "x", 0, 1) == 0;
    assert "x" in s1.remote && s1.remote.Keys == {"x"};
    assert s2.remote.Keys == s1.remote.Keys + {Generation("x", 0)};
    assert s2.remote.Keys == {"x", "x.0"};
    assert s2.remote["x.0"] == 1 && s2.remote["x"] == 2;
    assert s2.remote == map["x" := 2, "x.0" := 1];
    var s3 := Put(s2, "x", 3, 1);
    assert StopDepth(s2.listed, "x", 0, 1) == 1;
    assert s3.remote.Keys == s2.remote.Keys + {Generation("x", 1)};
    assert s3.remote.Keys == {"x", "x.0", "x.1"};
    assert s3.remote["x.1"] == 1 && s3.remote["x.0"] == 2 && s3.remote["x"] == 3;
    assert s3.remote == map["x" := 3, "x.0" := 2, "x.1" := 1];
    assert [1, 2, 3][1..] == [2, 3] && [2, 3][1..] == [3];
    assert PutMany(s3, "x", [], 1) == s3;
  }

  /** The fourth upload is the first to drop a version: the oldest content
      is gone and the others have moved down one generation. */
  lemma FourthUploadDropsOldest()
    ensures PutMany(Session(map[], {}), "x", [1, 2, 3, 4], 1).remote == map["x" := 4, "x.0" := 3, "x.1" := 2]
  {
    GenerationNames("x");
    assert "x" + ".0" == "x.0" && "x" + ".1" == "x.1";
    var s0: Session<int> := Session(map[], {});
    var s3 := PutMany(s0, "x", [1, 2, 3], 1);
    ThreeUploadsKeepEverything();
    var s4 := Put(s3, "x", 4, 1);
    assert StopDepth(s3.listed, "x", 0, 1) == 1;
    assert s4.remote.Keys == {"x", "x.0", "x.1"};
    assert s4.remote["x.1"] == 2 && s4.remote["x.0"] == 3 && s4.remote["x"] == 4;
    assert s4.remote == map["x" := 4, "x.0" := 3, "x.1" := 2];
    PutManySplits(s0, "x", [1, 2, 3], 4, 1);
  }

  lemma {:induction false} PutManySplits<B>(s: Session<B>, f: string, contents: seq<B>, last: B, max: nat)
    requires InSync(s)
    ensures PutMany(s, f, contents + [last], max) == Put(PutMany(s, f, contents, max), f, last, max)
    decreases |contents|
  {
    if |contents| == 0 {
      assert contents + [last] == [last];
    } else {
      assert (contents + [last])[1..] == contents[1..] + [last];
      PutManySplits(Put(s, f, contents[0], max), f, contents[1..], last, max);
    }
  }
}
