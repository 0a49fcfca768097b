/** Disk compaction: the dense disk map is expanded into one entry per
    block, then compacted either block by block (part 1) or whole file by
    whole file (part 2), and scored by a checksum
    (src/years/y2024/day09.rs). */
module DiskCompaction {
  import opened Wrappers
  import opened Text

  /** One block of the disk: free space (`"."` in the source) or a block
      of the file with the given id (the id written in decimal). */
  datatype Block = Free | File(id: nat)

  // ---------------------------------------------------------------------
  // Expanding the disk map

  /** The sum of the digits of a disk map: the number of blocks it
      describes. */
  function DigitSum(s: string): nat
    requires AllDigits(s)
  {
    if s == [] then 0 else DigitSum(s[..|s| - 1]) + DigitOf(s[|s| - 1])
  }

  /** What digit `i` of the disk map describes: free space at odd
      positions, file `i / 2` at even ones. */
  function BlockAt(i: nat): Block {
    if i % 2 != 0 then Free else File(i / 2)
  }

  /** `to_blocks`: every digit becomes that many copies of its block; a
      character that is not a decimal digit makes `to_digit(10).unwrap()`
      panic (`None`). */
  function ToBlocks(input: string): (r: Option<seq<Block>>)
    ensures r.Some? <==> AllDigits(input)
    ensures r.Some? ==> |r.value| == DigitSum(input)
  {
    if input == [] then Some([])
    else
      var last := |input| - 1;
      var front := ToBlocks(input[..last]);
      assert AllDigits(input) <==> AllDigits(input[..last]) && IsDigit(input[last]);
      match ToDigit(input[last])
      case None => None
      case Some(d) =>
        if front.None? then None
        else Some(front.value + Repeat(BlockAt(last), d))
  }

  /** `vec![b; d]`. */
  function Repeat(b: Block, d: nat): (r: seq<Block>)
    ensures |r| == d
  {
    if d == 0 then [] else Repeat(b, d - 1) + [b]
  }

  lemma {:induction false} RepeatCount(x: Block, y: Block, d: nat)
    ensures multiset(Repeat(x, d))[y] == if x == y then d else 0
  {
    if d > 0 { RepeatCount(x, y, d - 1); }
  }

  /** File `k` occupies as many blocks as digit `2 * k` of the disk map
      says, and a file id beyond the map occupies none. */
  lemma {:induction false} ToBlocksFileSize(input: string, k: nat)
    requires AllDigits(input)
    ensures multiset(ToBlocks(input).value)[File(k)]
      == if 2 * k < |input| then DigitOf(input[2 * k]) else 0
  {
    if input != [] {
      var last := |input| - 1;
      var d := DigitOf(input[last]);
      ToBlocksLast(input);
      var front, run := ToBlocks(input[..last]).value, Repeat(BlockAt(last), d);
      ToBlocksFileSize(input[..last], k);
      RepeatCount(BlockAt(last), File(k), d);
      MultisetAppend(front, run, File(k));
      BlockAtFile(last, k);
      if 2 * k < last {
        assert input[..last][2 * k] == input[2 * k];
      }
    }
  }

  /** `to_blocks` appends the run of the last digit to the blocks of the
      digits before it. */
  lemma ToBlocksLast(input: string)
    requires AllDigits(input) && input != []
    ensures AllDigits(input[..|input| - 1])
    ensures ToBlocks(input).value
      == ToBlocks(input[..|input| - 1]).value + Repeat(BlockAt(|input| - 1), DigitOf(input[|input| - 1]))
  {
    var last := |input| - 1;
    assert AllDigits(input[..last]);
    assert ToDigit(input[last]) == Some(DigitOf(input[last]));
  }

  lemma MultisetAppend(front: seq<Block>, run: seq<Block>, x: Block)
    ensures multiset(front + run)[x] == multiset(front)[x] + multiset(run)[x]
  {
  }

  /** Digit `i` describes file `k` exactly when `i == 2 * k`. */
  lemma BlockAtFile(i: nat, k: nat)
    ensures BlockAt(i) == File(k) <==> i == 2 * k
  {
  }

  // ---------------------------------------------------------------------
  // Checksums

  /** Part 1's checksum: the sum of position times file id. */
  function Checksum(ids: seq<nat>): nat {
    if ids == [] then 0
    else Checksum(ids[..|ids| - 1]) + (|ids| - 1) * ids[|ids| - 1]
  }

  /** Part 2's checksum: the same sum over blocks, free space counting
      zero. */
  function BlockChecksum(blocks: seq<Block>): nat {
    if blocks == [] then 0
    else
      var last := blocks[|blocks| - 1];
      BlockChecksum(blocks[..|blocks| - 1])
        + (match last case Free => 0 case File(id) => (|blocks| - 1) * id)
  }

  /** The file ids of `blocks`, in order, free space dropped. */
  function FileIds(blocks: seq<Block>): seq<nat> {
    if blocks == [] then []
    else (if blocks[0].File? then [blocks[0].id] else []) + FileIds(blocks[1..])
  }

  /** On a disk with no free space the two checksums agree. */
  lemma {:induction false} ChecksumsAgree(blocks: seq<Block>)
    requires forall k :: 0 <= k < |blocks| ==> blocks[k].File?
    ensures BlockChecksum(blocks) == Checksum(FileIds(blocks))
  {
    if blocks != [] {
      var front := blocks[..|blocks| - 1];
      ChecksumsAgree(front);
      FileIdsAppend(front, [blocks[|blocks| - 1]]);
      assert front + [blocks[|blocks| - 1]] == blocks;
      assert FileIds(front) == FileIds(blocks)[..|blocks| - 1] by {
        AllFilesKeepLength(front);
      }
      AllFilesKeepLength(blocks);
    }
  }

  lemma {:induction false} AllFilesKeepLength(blocks: seq<Block>)
    requires forall k :: 0 <= k < |blocks| ==> blocks[k].File?
    ensures |FileIds(blocks)| == |blocks|
  {
    if blocks != [] { AllFilesKeepLength(blocks[1..]); }
  }

  lemma {:induction false} FileIdsAppend(a: seq<Block>, b: seq<Block>)
    ensures FileIds(a + b) == FileIds(a) + FileIds(b)
  {
    if a != [] {
      assert (a + b)[1..] == a[1..] + b;
      FileIdsAppend(a[1..], b);
    } else {
      assert a + b == b;
    }
  }

  lemma {:induction false} FreeHasNoIds(blocks: seq<Block>)
    requires forall k :: 0 <= k < |blocks| ==> blocks[k].Free?
    ensures FileIds(blocks) == []
  {
    if blocks != [] { FreeHasNoIds(blocks[1..]); }
  }

  // ---------------------------------------------------------------------
  // Part 1 as written

  /** `while blocks[j] == "." { j -= 1 }`: the last file block at or
      before `j`; stepping below block 0 is a `usize` underflow (`None`). */
  function SkipFree(blocks: seq<Block>, j: nat): (r: Option<nat>)
    requires j < |blocks|
    ensures r.Some? ==> (r.value <= j && blocks[r.value].File?
      && forall k :: r.value < k <= j ==> blocks[k].Free?)
    ensures r.None? ==> forall k :: 0 <= k <= j ==> blocks[k].Free?
  {
    if blocks[j].File? then Some(j)
    else if j == 0 then None
    else SkipFree(blocks, j - 1)
  }

  /** `compact` from position `i` with back cursor `j`, exactly as
      written: at a free block it skips free space backwards from `j`
      without stopping at `i`, and `j -= 1` below zero panics. */
  function CompactAsWrittenFrom(blocks: seq<Block>, i: nat, j: nat): (r: Option<seq<nat>>)
    requires j < |blocks|
    decreases j - i + 1
  {
    if i > j then Some([])
    else
      match blocks[i]
      case File(id) =>
        var rest := CompactAsWrittenFrom(blocks, i + 1, j);
        if rest.None? then None else Some([id] + rest.value)
      case Free =>
        match SkipFree(blocks, j)
        case None => None
        case Some(k) =>
          if k == 0 then None
          else
            var rest := CompactAsWrittenFrom(blocks, i + 1, k - 1);
            if rest.None? then None else Some([blocks[k].id] + rest.value)
  }

  /** `compact` as written; an empty disk underflows `blocks.len() - 1`.
      When it does not panic it pushes one id per step of the left cursor,
      each the id of a file block of the disk, and a file block the left
      cursor reaches is pushed at its own position. */
  function CompactAsWritten(blocks: seq<Block>): Option<seq<nat>>
  {
    if blocks == [] then None
    else CompactAsWrittenFrom(blocks, 0, |blocks| - 1)
  }

  /** `compact` as written panics on an empty disk; otherwise it pushes at
      most one id per block, each the id of a file block of the disk, and
      a file block the left cursor reaches is pushed at its own position. */
  lemma CompactAsWrittenShape(blocks: seq<Block>)
    ensures blocks == [] ==> CompactAsWritten(blocks).None?
    ensures var r := CompactAsWritten(blocks);
      r.Some? ==> (|r.value| <= |blocks|
        && forall p :: 0 <= p < |r.value| ==>
             File(r.value[p]) in blocks && (blocks[p].File? ==> r.value[p] == blocks[p].id))
  {
    if blocks != [] {
      CompactAsWrittenFromShape(blocks, 0, |blocks| - 1);
    }
  }

  /** Every id the loop as written pushes is the id of a file block, and
      a file block the left cursor reaches is pushed at its own position. */
  lemma {:induction false} CompactAsWrittenFromShape(blocks: seq<Block>, i: nat, j: nat)
    requires j < |blocks|
    ensures var r := CompactAsWrittenFrom(blocks, i, j);
      r.Some? ==> |r.value| <= (if i <= j then j - i + 1 else 0)
    ensures var r := CompactAsWrittenFrom(blocks, i, j);
      r.Some? ==> forall p :: 0 <= p < |r.value| ==>
        i + p <= j && File(r.value[p]) in blocks
        && (blocks[i + p].File? ==> r.value[p] == blocks[i + p].id)
    decreases j - i + 1
  {
    var r := CompactAsWrittenFrom(blocks, i, j);
    if i <= j && r.Some? {
      match blocks[i]
      case File(id) =>
        CompactAsWrittenFromShape(blocks, i + 1, j);
        var rest := CompactAsWrittenFrom(blocks, i + 1, j).value;
        assert r.value == [id] + rest;
        assert blocks[i] in blocks;
        forall p | 0 < p < |r.value| ensures r.value[p] == rest[p - 1] {}
      case Free =>
        var k := SkipFree(blocks, j).value;
        CompactAsWrittenFromShape(blocks, i + 1, k - 1);
        var rest := CompactAsWrittenFrom(blocks, i + 1, k - 1).value;
        assert r.value == [blocks[k].id] + rest;
        assert blocks[k] in blocks;
        forall p | 0 < p < |r.value| ensures r.value[p] == rest[p - 1] {}
    }
  }

  /** On the disk map "11111" (file 0, gap, file 1, gap, file 2) the
      written loop moves file 2 into the first gap, then meets the second
      gap after the back cursor has already passed it and pushes file 1 a
      second time: the result is not a rearrangement of the files, and the
      checksum is 7 where compaction gives 4. */
  lemma CompactAsWrittenDuplicates()
    ensures CompactAsWritten([File(0), Free, File(1), Free, File(2)]) == Some([0, 2, 1, 1])
    ensures Compact([File(0), Free, File(1), Free, File(2)]) == [0, 2, 1]
    ensures Checksum([0, 2, 1, 1]) == 7 && Checksum([0, 2, 1]) == 4
  {
    var blocks := [File(0), Free, File(1), Free, File(2)];
    assert SkipFree(blocks, 3) == Some(2) by {
      assert SkipFree(blocks, 2) == Some(2);
    }
    var w4 := CompactAsWrittenFrom(blocks, 4, 1);
    assert w4 == Some([]);
    var w3 := CompactAsWrittenFrom(blocks, 3, 3);
    assert w3 == Some([blocks[2].id] + w4.value);
    assert blocks[2].id == 1;
    assert w4.value == [];
    assert [blocks[2].id] + w4.value == [1];
    assert w3 == Some([1]);
    var w2 := CompactAsWrittenFrom(blocks, 2, 3);
    assert w2 == Some([1] + w3.value);
    assert [1] + w3.value == [1, 1];
    assert w2 == Some([1, 1]);
    var w1 := CompactAsWrittenFrom(blocks, 1, 4);
    assert w1 == Some([blocks[4].id] + w2.value);
    assert blocks[4].id == 2;
    assert [blocks[4].id] + w2.value == [2, 1, 1];
    assert w1 == Some([2, 1, 1]);
    var w0 := CompactAsWrittenFrom(blocks, 0, 4);
    assert w0 == Some([0] + w1.value);
    assert [0] + w1.value == [0, 2, 1, 1];
    assert w0 == Some([0, 2, 1, 1]);
    var c3 := CompactFrom(blocks, 3, 3);
    assert Back(blocks, 3, 3) == 3;
    assert c3 == [];
    var c2 := CompactFrom(blocks, 2, 3);
    assert c2 == [1] + c3;
    var c1 := CompactFrom(blocks, 1, 4);
    assert Back(blocks, 1, 4) == 4;
    assert c1 == [blocks[4].id] + c2;
    var c0 := CompactFrom(blocks, 0, 4);
    assert c0 == [0] + c1;
    assert [0, 2, 1, 1][..3] == [0, 2, 1];
    assert [0, 2, 1][..2] == [0, 2];
    assert [0, 2][..1] == [0];
    assert [0][..0] == [];
    assert Checksum([0]) == 0;
    assert Checksum([0, 2]) == 2;
    assert Checksum([0, 2, 1]) == 4;
    assert Checksum([0, 2, 1, 1]) == 7;
    assert CompactAsWritten(blocks) == w0;
    assert Compact(blocks) == c0;
  }

  /** The disk map "11111" expands to file 0, a gap, file 1, a gap and
      file 2, the disk of `CompactAsWrittenDuplicates`. */
  lemma ExpandOnes()
    ensures ToBlocks("11111") == Some([File(0), Free, File(1), Free, File(2)])
  {
    assert ToDigit('1') == Some(1);
    assert Repeat(Free, 1) == [Free];
    forall k: nat
      ensures Repeat(File(k), 1) == [File(k)]
    {
      assert Repeat(File(k), 1) == Repeat(File(k), 0) + [File(k)];
    }
    assert "11111"[..4] == "1111";
    assert "1111"[..3] == "111";
    assert "111"[..2] == "11";
    assert "11"[..1] == "1";
    assert "1"[..0] == "";
    assert BlockAt(0) == File(0) && BlockAt(1) == Free && BlockAt(2) == File(1);
    assert BlockAt(3) == Free && BlockAt(4) == File(2);
    assert ToBlocks("1").value == [] + [File(0)];
    assert ToBlocks("11").value == [File(0)] + [Free];
    assert ToBlocks("111").value == [File(0), Free] + [File(1)];
    assert ToBlocks("1111").value == [File(0), Free, File(1)] + [Free];
    assert ToBlocks("11111").value == [File(0), Free, File(1), Free] + [File(2)];
    assert [File(0), Free, File(1), Free] + [File(2)] == [File(0), Free, File(1), Free, File(2)];
  }

  /** On the disk map "12" (file 0 followed by two free blocks) the
      written loop steps the back cursor below block 0 and panics. */
  lemma CompactAsWrittenUnderflows()
    ensures CompactAsWritten([File(0), Free, Free]).None?
    ensures Compact([File(0), Free, Free]) == [0]
  {
    var blocks := [File(0), Free, Free];
    assert SkipFree(blocks, 2) == Some(0);
    assert Back(blocks, 1, 2) == 1;
  }

  // ---------------------------------------------------------------------
  // Part 1 corrected

  /** Where the back cursor stops when it skips free blocks from `j` but
      never passes `i`: the last file block after `i`, or `i` itself when
      there is none. */
  function Back(blocks: seq<Block>, i: nat, j: nat): (k: nat)
    requires i <= j < |blocks|
    ensures i <= k <= j && (k > i ==> blocks[k].File?)
    ensures forall m :: k < m <= j ==> blocks[m].Free?
  {
    if j == i || blocks[j].File? then j else Back(blocks, i, j - 1)
  }

  /** Block-by-block compaction of positions `i..=j`: a file block stays,
      a free block takes the last file block of the range, and once the
      range holds only free space nothing more is produced. */
  function CompactFrom(blocks: seq<Block>, i: nat, j: int): seq<nat>
    requires j < |blocks|
    decreases j - i + 1
  {
    if i > j then []
    else if blocks[i].File? then [blocks[i].id] + CompactFrom(blocks, i + 1, j)
    else
      var k := Back(blocks, i, j);
      if k == i then [] else [blocks[k].id] + CompactFrom(blocks, i + 1, k - 1)
  }

  /** Part 1's compaction: file blocks move one at a time from the end of
      the disk into the leftmost free block. */
  function Compact(blocks: seq<Block>): seq<nat>
  {
    if blocks == [] then [] else CompactFrom(blocks, 0, |blocks| - 1)
  }

  /** The file id a block holds, if any. */
  function Own(b: Block): seq<nat> {
    if b.File? then [b.id] else []
  }

  /** The file ids of positions `i..=j`, in order. */
  function IdsIn(blocks: seq<Block>, i: nat, j: int): seq<nat>
    requires j < |blocks|
    decreases j - i + 1
  {
    if i > j then []
    else Own(blocks[i]) + IdsIn(blocks, i + 1, j)
  }

  lemma {:induction false} IdsInSplit(blocks: seq<Block>, i: nat, k: nat, j: int)
    requires i <= k <= j + 1 && j < |blocks|
    ensures IdsIn(blocks, i, j) == IdsIn(blocks, i, k - 1) + IdsIn(blocks, k, j)
    decreases k - i
  {
    if i < k {
      IdsInSplit(blocks, i + 1, k, j);
    }
  }

  lemma {:induction false} IdsInFree(blocks: seq<Block>, i: nat, j: int)
    requires j < |blocks|
    requires forall m :: i <= m <= j ==> blocks[m].Free?
    ensures IdsIn(blocks, i, j) == []
    decreases j - i + 1
  {
    if i <= j { IdsInFree(blocks, i + 1, j); }
  }

  lemma {:induction false} IdsInAll(blocks: seq<Block>, i: nat)
    requires i <= |blocks|
    ensures IdsIn(blocks, i, |blocks| - 1) == FileIds(blocks[i..])
    decreases |blocks| - i
  {
    if i < |blocks| {
      IdsInAll(blocks, i + 1);
      assert blocks[i..][1..] == blocks[i + 1..];
    }
  }

  /** With block `i` free and `k` the last file block of `i..=j`, the
      file ids of the range are those strictly between, then file `k`. */
  lemma LastFileIds(blocks: seq<Block>, i: nat, k: nat, j: int)
    requires i < k <= j < |blocks| && blocks[i].Free? && blocks[k].File?
    requires forall m :: k < m <= j ==> blocks[m].Free?
    ensures IdsIn(blocks, i, j) == IdsIn(blocks, i + 1, k - 1) + [blocks[k].id]
  {
    var tail := IdsIn(blocks, k + 1, j);
    assert tail == [] by {
      IdsInFree(blocks, k + 1, j);
    }
    var own := Own(blocks[k]);
    assert IdsIn(blocks, k, j) == own + tail;
    assert own + tail == [blocks[k].id];
    var rest := IdsIn(blocks, i + 1, j);
    assert IdsIn(blocks, i, j) == Own(blocks[i]) + rest;
    assert Own(blocks[i]) + rest == rest;
    IdsInSplit(blocks, i + 1, k, j);
  }

  /** How often `x` occurs in `s`. */
  function Count<T(==)>(s: seq<T>, x: T): nat {
    if s == [] then 0 else (if s[0] == x then 1 else 0) + Count(s[1..], x)
  }

  lemma {:induction false} CountAppend<T>(a: seq<T>, b: seq<T>, x: T)
    ensures Count(a + b, x) == Count(a, x) + Count(b, x)
  {
    if a == [] {
      assert a + b == b;
    } else {
      assert (a + b)[1..] == a[1..] + b;
      CountAppend(a[1..], b, x);
    }
  }

  lemma {:induction false} CountIsMultiplicity<T>(s: seq<T>, x: T)
    ensures multiset(s)[x] == Count(s, x)
  {
    if s != [] {
      CountIsMultiplicity(s[1..], x);
      assert s == [s[0]] + s[1..];
    }
  }

  lemma {:induction false} CompactFromPermutes(blocks: seq<Block>, i: nat, j: int, x: nat)
    requires i <= j + 1 && j < |blocks|
    ensures Count(CompactFrom(blocks, i, j), x) == Count(IdsIn(blocks, i, j), x)
    decreases j - i + 1
  {
    if i > j {
    } else if blocks[i].File? {
      CompactFromPermutes(blocks, i + 1, j, x);
      CountAppend([blocks[i].id], CompactFrom(blocks, i + 1, j), x);
      CountAppend(Own(blocks[i]), IdsIn(blocks, i + 1, j), x);
    } else if Back(blocks, i, j) == i {
      IdsInFree(blocks, i, j);
    } else {
      var k := Back(blocks, i, j);
      var file := blocks[k].id;
      var inner := CompactFrom(blocks, i + 1, k - 1);
      var between := IdsIn(blocks, i + 1, k - 1);
      assert CompactFrom(blocks, i, j) == [file] + inner;
      CompactFromPermutes(blocks, i + 1, k - 1, x);
      LastFileIds(blocks, i, k, j);
      CountAppend([file], inner, x);
      CountAppend(between, [file], x);
    }
  }

  /** A compacted stretch is no longer than the stretch it came from. */
  lemma {:induction false} CompactFromLength(blocks: seq<Block>, i: nat, j: int)
    requires i <= j + 1 && j < |blocks|
    ensures |CompactFrom(blocks, i, j)| <= j - i + 1
    decreases j - i + 1
  {
    if i <= j {
      var k := Back(blocks, i, j);
      if blocks[i].File? {
        CompactFromLength(blocks, i + 1, j);
      } else if k > i {
        CompactFromLength(blocks, i + 1, k - 1);
      }
    }
  }

  /** Position `p` of a compacted stretch starting at `i` holds the file
      that sat at `i + p`, when that block was a file block. */
  lemma {:induction false} CompactFromKeepsFile(blocks: seq<Block>, i: nat, j: int, p: nat)
    requires i <= j + 1 && j < |blocks|
    requires p < |CompactFrom(blocks, i, j)| && i + p <= j && blocks[i + p].File?
    ensures CompactFrom(blocks, i, j)[p] == blocks[i + p].id
    decreases j - i + 1, 1
  {
    if blocks[i].File? {
      KeepsFileAtFile(blocks, i, j, p);
    } else {
      KeepsFileAtFree(blocks, i, j, p);
    }
  }

  /** `CompactFromKeepsFile` when the front cursor is on a file block. */
  lemma {:induction false} KeepsFileAtFile(blocks: seq<Block>, i: nat, j: nat, p: nat)
    requires i <= j < |blocks| && blocks[i].File?
    requires p < |CompactFrom(blocks, i, j)| && i + p <= j && blocks[i + p].File?
    ensures CompactFrom(blocks, i, j)[p] == blocks[i + p].id
    decreases j - i + 1, 0
  {
    var whole := CompactFrom(blocks, i, j);
    var rest := CompactFrom(blocks, i + 1, j);
    CompactFromFile(blocks, i, j);
    if p == 0 {
      assert whole[0] == blocks[i].id;
    } else {
      HeadIndex(whole, blocks[i].id, rest, p);
      assert (i + 1) + (p - 1) == i + p;
      CompactFromKeepsFile(blocks, i + 1, j, p - 1);
    }
  }

  /** `CompactFromKeepsFile` when the front cursor is on a free block: the
      file block at `i + p` lies before the one moved forward. */
  lemma {:induction false} KeepsFileAtFree(blocks: seq<Block>, i: nat, j: nat, p: nat)
    requires i <= j < |blocks| && blocks[i].Free?
    requires p < |CompactFrom(blocks, i, j)| && i + p <= j && blocks[i + p].File?
    ensures CompactFrom(blocks, i, j)[p] == blocks[i + p].id
    decreases j - i + 1, 0
  {
    var k := Back(blocks, i, j);
    CompactFromFree(blocks, i, j);
    assert k > i;
    var inner := CompactFrom(blocks, i + 1, k - 1);
    CompactFromLength(blocks, i + 1, k - 1);
    assert i + p <= k - 1;
    HeadIndex(CompactFrom(blocks, i, j), blocks[k].id, inner, p);
    CompactFromKeepsFile(blocks, i + 1, k - 1, p - 1);
  }

  /** Compaction rearranges the file blocks and nothing else, and a file
      block already inside the compacted prefix keeps its place. */
  lemma CompactIsRearrangement(blocks: seq<Block>)
    ensures |Compact(blocks)| <= |blocks|
    ensures multiset(Compact(blocks)) == multiset(FileIds(blocks))
    ensures |Compact(blocks)| == |FileIds(blocks)|
    ensures forall p :: (0 <= p < |Compact(blocks)| && blocks[p].File?
      ==> Compact(blocks)[p] == blocks[p].id)
  {
    CompactFromLength(blocks, 0, |blocks| - 1);
    forall p | 0 <= p < |Compact(blocks)| && blocks[p].File?
      ensures Compact(blocks)[p] == blocks[p].id
    {
      CompactFromKeepsFile(blocks, 0, |blocks| - 1, p);
    }
    IdsInAll(blocks, 0);
    assert blocks[0..] == blocks;
    forall x: nat
      ensures multiset(Compact(blocks))[x] == multiset(FileIds(blocks))[x]
    {
      CompactFromPermutes(blocks, 0, |blocks| - 1, x);
      CountIsMultiplicity(Compact(blocks), x);
      CountIsMultiplicity(FileIds(blocks), x);
    }
    assert multiset(Compact(blocks)) == multiset(FileIds(blocks));
    assert |multiset(Compact(blocks))| == |multiset(FileIds(blocks))|;
  }

  /** Moves the back cursor `j` over free blocks, stopping at the front
      cursor `i`: the last file block after `i`, or `i` when there is none. */
  method SkipBack(blocks: seq<Block>, i: nat, j: nat) returns (k: nat)
    requires i <= j < |blocks|
    ensures k == Back(blocks, i, j)
  {
    k := j;
    while k > i && blocks[k].Free?
      invariant i <= k <= j
      invariant Back(blocks, i, k) == Back(blocks, i, j)
      decreases k
    {
      k := k - 1;
    }
  }

  /** One step of the corrected loop at a file block: it is pushed. */
  lemma CompactFromFile(blocks: seq<Block>, i: nat, j: nat)
    requires i <= j < |blocks| && blocks[i].File?
    ensures CompactFrom(blocks, i, j) == [blocks[i].id] + CompactFrom(blocks, i + 1, j)
  {
  }

  /** One step of the corrected loop at a free block: the loop ends when
      the skip reaches the left cursor, and otherwise the file block it
      lands on is pushed. */
  lemma CompactFromFree(blocks: seq<Block>, i: nat, j: nat)
    requires i <= j < |blocks| && blocks[i].Free?
    ensures var k := Back(blocks, i, j);
      CompactFrom(blocks, i, j) == if k == i then [] else [blocks[k].id] + CompactFrom(blocks, i + 1, k - 1)
  {
  }

  /** Position `p > 0` of a sequence with one id in front is position
      `p - 1` of the rest. */
  lemma HeadIndex(whole: seq<nat>, x: nat, rest: seq<nat>, p: nat)
    requires whole == [x] + rest && 0 < p < |whole|
    ensures p - 1 < |rest| && whole[p] == rest[p - 1]
  {
  }

  /** Pushing one id moves it from the rest to what is pushed. */
  lemma PushOne(pushed: seq<nat>, x: nat, rest: seq<nat>)
    ensures pushed + ([x] + rest) == (pushed + [x]) + rest
  {
  }


  /** `compact` with the back cursor stopped at the front one: the
      two-cursor loop. */
  method CompactBlocks(blocks: seq<Block>) returns (result: seq<nat>)
    ensures result == Compact(blocks)
  {
    var i: nat := 0;
    var j: int := |blocks| - 1;
    result := [];
    while i <= j
      invariant i <= j + 1 && j < |blocks|
      invariant result + CompactFrom(blocks, i, j) == Compact(blocks)
      decreases j - i + 1
    {
      match blocks[i] {
        case File(id) =>
          CompactFromFile(blocks, i, j);
          PushOne(result, id, CompactFrom(blocks, i + 1, j));
          result := result + [id];
        case Free =>
          var k := SkipBack(blocks, i, j);
          CompactFromFree(blocks, i, j);
          if k == i {
            assert result + [] == result;
            break;
          }
          PushOne(result, blocks[k].id, CompactFrom(blocks, i + 1, k - 1));
          result := result + [blocks[k].id];
          j := k - 1;
      }
      i := i + 1;
    }
  }

  // ---------------------------------------------------------------------
  // Part 1 as the source runs it

  /** Where `while blocks[j] == "." { j -= 1 }` stops, compared with the
      corrected skip: the same block when that block is after `i`, and
      `i` itself when the written skip runs past `i`. */
  lemma {:induction false} BackOfSkip(blocks: seq<Block>, i: nat, j: nat)
    requires i <= j < |blocks| && SkipFree(blocks, j).Some?
    ensures Back(blocks, i, j)
      == if SkipFree(blocks, j).value >= i then SkipFree(blocks, j).value else i
  {
    if blocks[j].Free? && j > i {
      BackOfSkip(blocks, i, j - 1);
    }
  }

  /** The loop as written produces the corrected compaction first: its
      result differs only by what it pushes after the cursors cross. */
  lemma {:induction false} CompactAsWrittenFromPrefix(blocks: seq<Block>, i: nat, j: nat)
    requires j < |blocks|
    ensures CompactAsWrittenFrom(blocks, i, j).Some?
      ==> CompactFrom(blocks, i, j) <= CompactAsWrittenFrom(blocks, i, j).value
    decreases j - i + 1
  {
    var r := CompactAsWrittenFrom(blocks, i, j);
    if i <= j && r.Some? {
      match blocks[i]
      case File(id) =>
        CompactAsWrittenFromPrefix(blocks, i + 1, j);
        assert r.value == [id] + CompactAsWrittenFrom(blocks, i + 1, j).value;
        assert CompactFrom(blocks, i, j) == [id] + CompactFrom(blocks, i + 1, j);
      case Free =>
        var k := SkipFree(blocks, j).value;
        if k > i {
          CompactAsWrittenFromPrefix(blocks, i + 1, k - 1);
        }
        FreeStepPrefix(blocks, i, j, k);
    }
  }

  /** The free-block step of `CompactAsWrittenFromPrefix`: when the skip as
      written lands at or before the left cursor the corrected loop stops,
      and otherwise both push the same id and go on from the same
      cursors. */
  lemma FreeStepPrefix(blocks: seq<Block>, i: nat, j: nat, k: nat)
    requires i <= j < |blocks| && blocks[i].Free?
    requires SkipFree(blocks, j) == Some(k) && CompactAsWrittenFrom(blocks, i, j).Some?
    requires k > i ==> CompactFrom(blocks, i + 1, k - 1) <= CompactAsWrittenFrom(blocks, i + 1, k - 1).value
    ensures CompactFrom(blocks, i, j) <= CompactAsWrittenFrom(blocks, i, j).value
  {
    BackOfSkip(blocks, i, j);
    if k > i {
      assert CompactAsWrittenFrom(blocks, i, j).value == [blocks[k].id] + CompactAsWrittenFrom(blocks, i + 1, k - 1).value;
      assert CompactFrom(blocks, i, j) == [blocks[k].id] + CompactFrom(blocks, i + 1, k - 1);
    } else {
      assert CompactFrom(blocks, i, j) == [];
    }
  }

  /** `compact` as written never loses a file id: when it does not panic,
      every file block's id is among the ids it pushes, as often. */
  lemma CompactAsWrittenKeepsIds(blocks: seq<Block>)
    ensures CompactAsWritten(blocks).Some? ==>
      multiset(FileIds(blocks)) <= multiset(CompactAsWritten(blocks).value)
  {
    var w := CompactAsWritten(blocks);
    if w.Some? {
      CompactAsWrittenFromPrefix(blocks, 0, |blocks| - 1);
      assert Compact(blocks) <= w.value;
      CompactSameIds(blocks);
      PrefixKeepsIds(Compact(blocks), w.value, FileIds(blocks));
    }
  }

  /** The corrected compaction holds each file id as often as the disk. */
  lemma CompactSameIds(blocks: seq<Block>)
    ensures multiset(Compact(blocks)) == multiset(FileIds(blocks))
  {
    CompactIsRearrangement(blocks);
  }

  /** A prefix with the ids `f` leaves every id of `f` in the whole. */
  lemma PrefixKeepsIds(c: seq<nat>, w: seq<nat>, f: seq<nat>)
    requires c <= w && multiset(c) == multiset(f)
    ensures multiset(f) <= multiset(w)
  {
    PrefixMultiset(c, w);
  }

  /** A prefix's elements occur in the whole sequence at least as often. */
  lemma PrefixMultiset(c: seq<nat>, w: seq<nat>)
    requires c <= w
    ensures multiset(c) <= multiset(w)
  {
    assert w == c + w[|c|..];
    assert multiset(w) == multiset(c) + multiset(w[|c|..]);
  }

  /** `compact` as written is the corrected compaction exactly when it
      pushes one id per file block; any longer result repeats ids. */
  lemma CompactAsWrittenAgrees(blocks: seq<Block>)
    ensures CompactAsWritten(blocks) == Some(Compact(blocks))
      <==> CompactAsWritten(blocks).Some? && |CompactAsWritten(blocks).value| == |FileIds(blocks)|
  {
    var w := CompactAsWritten(blocks);
    var c := Compact(blocks);
    assert |c| == |FileIds(blocks)| by { CompactIsRearrangement(blocks); }
    if w.Some? && |w.value| == |FileIds(blocks)| {
      CompactAsWrittenFromPrefix(blocks, 0, |blocks| - 1);
      assert w.value == c;
    }
  }

  /** `compact` as written: the two-cursor loop, with the skip over free
      blocks not stopped at the left cursor and `j -= 1` below zero a
      panic (None). */
  method CompactWritten(blocks: seq<Block>) returns (r: Option<seq<nat>>)
    ensures r == CompactAsWritten(blocks)
  {
    if |blocks| == 0 {
      return None;
    }
    var i: nat := 0;
    var j: nat := |blocks| - 1;
    var result: seq<nat> := [];
    assert CompactAsWrittenFrom(blocks, i, j).Some? ==>
      result + CompactAsWrittenFrom(blocks, i, j).value == CompactAsWrittenFrom(blocks, i, j).value;
    while i <= j
      invariant j < |blocks|
      invariant CompactAsWrittenFrom(blocks, i, j).None? ==> CompactAsWritten(blocks).None?
      invariant CompactAsWrittenFrom(blocks, i, j).Some? ==>
        CompactAsWritten(blocks) == Some(result + CompactAsWrittenFrom(blocks, i, j).value)
      decreases j - i + 1
    {
      match blocks[i] {
        case File(id) =>
          UnfoldFile(blocks, i, j);
          PushStep(CompactAsWritten(blocks), CompactAsWrittenFrom(blocks, i, j),
                   CompactAsWrittenFrom(blocks, i + 1, j), result, id);
          result := result + [id];
        case Free =>
          ghost var j0 := j;
          UnfoldFree(blocks, i, j);
          while blocks[j].Free?
            invariant SkipFree(blocks, j) == SkipFree(blocks, j0)
            decreases j
          {
            if j == 0 {
              return None;
            }
            j := j - 1;
          }
          assert SkipFree(blocks, j) == Some(j);
          if j == 0 {
            return None;
          }
          PushStep(CompactAsWritten(blocks), CompactAsWrittenFrom(blocks, i, j0),
                   CompactAsWrittenFrom(blocks, i + 1, j - 1), result, blocks[j].id);
          result := result + [blocks[j].id];
          j := j - 1;
      }
      i := i + 1;
    }
    assert result + [] == result;
    return Some(result);
  }

  /** One step of the loop as written at a file block: it pushes the id
      and goes on with the same right cursor. */
  lemma UnfoldFile(blocks: seq<Block>, i: nat, j: nat)
    requires i <= j < |blocks| && blocks[i].File?
    ensures var rest := CompactAsWrittenFrom(blocks, i + 1, j);
      CompactAsWrittenFrom(blocks, i, j) == if rest.None? then None else Some([blocks[i].id] + rest.value)
  {
  }

  /** One step of the loop as written at a free block: the skip panics
      when it runs out of blocks or lands on block 0 (the `j -= 1` after
      the push), and otherwise the step pushes the id it lands on. */
  lemma UnfoldFree(blocks: seq<Block>, i: nat, j: nat)
    requires i <= j < |blocks| && blocks[i].Free?
    ensures SkipFree(blocks, j).None? ==> CompactAsWrittenFrom(blocks, i, j).None?
    ensures SkipFree(blocks, j) == Some(0) ==> CompactAsWrittenFrom(blocks, i, j).None?
    ensures SkipFree(blocks, j).Some? && SkipFree(blocks, j).value > 0 ==>
      var k := SkipFree(blocks, j).value;
      var rest := CompactAsWrittenFrom(blocks, i + 1, k - 1);
      CompactAsWrittenFrom(blocks, i, j) == if rest.None? then None else Some([blocks[k].id] + rest.value)
  {
  }

  /** Pushing one id keeps "what is pushed, then what the rest of the
      loop pushes" equal to the whole result. */
  lemma PushStep(whole: Option<seq<nat>>, cur: Option<seq<nat>>, rest: Option<seq<nat>>, pushed: seq<nat>, id: nat)
    requires cur == if rest.None? then None else Some([id] + rest.value)
    requires cur.None? ==> whole.None?
    requires cur.Some? ==> whole == Some(pushed + cur.value)
    ensures rest.None? ==> whole.None?
    ensures rest.Some? ==> whole == Some((pushed + [id]) + rest.value)
  {
    if rest.Some? {
      assert pushed + ([id] + rest.value) == (pushed + [id]) + rest.value;
    }
  }


  /** `solve_part_1`: the checksum (the sum of position times file id) of
      the disk compacted by `compact` as written; None where the source
      panics, on a character that is not a digit or an underflow of `j`. */
  function SolvePart1(input: string): (r: Option<nat>)
    ensures r.Some? <==> AllDigits(input) && CompactAsWritten(ToBlocks(input).value).Some?
    ensures r.Some? ==> r.value == Checksum(CompactAsWritten(ToBlocks(input).value).value)
    ensures r.Some? && |CompactAsWritten(ToBlocks(input).value).value| == |FileIds(ToBlocks(input).value)|
      ==> r.value == Checksum(Compact(ToBlocks(input).value))
  {
    match ToBlocks(input)
    case None => None
    case Some(blocks) =>
      CompactAsWrittenAgrees(blocks); CompactAsWrittenKeepsIds(blocks);
      match CompactAsWritten(blocks)
      case None => None
      case Some(ids) => Some(Checksum(ids))
  }

  /** Part 1 as written gives 7 on "11111", where compaction gives 4, and
      panics on the empty map and on "12". */
  lemma SolvePart1Examples()
    ensures SolvePart1("11111") == Some(7)
    ensures SolvePart1("") == None
    ensures SolvePart1("12") == None
  {
    ExpandOnes();
    CompactAsWrittenDuplicates();
    ExpandOneTwo();
    CompactAsWrittenUnderflows();
  }

  /** The disk map "12" expands to file 0 and two free blocks. */
  lemma ExpandOneTwo()
    ensures ToBlocks("12") == Some([File(0), Free, Free])
  {
    assert ToDigit('1') == Some(1) && ToDigit('2') == Some(2);
    assert Repeat(File(0), 1) == [File(0)];
    assert Repeat(Free, 1) == [Free];
    assert Repeat(Free, 2) == Repeat(Free, 1) + [Free] == [Free, Free];
    assert "12"[..1] == "1" && "1"[..0] == "";
    assert ToBlocks("") == Some([]);
    assert ToBlocks("1") == Some([] + Repeat(BlockAt(0), 1));
    assert ToBlocks("1") == Some([File(0)]);
    assert BlockAt(1) == Free;
    assert ToBlocks("12") == Some([File(0)] + Repeat(BlockAt(1), 2));
    assert [File(0)] + [Free, Free] == [File(0), Free, Free];
  }

  // ---------------------------------------------------------------------
  // Part 2

  /** Blocks `s ..= s + size` of `a` exist and are all free: a place for
      a file of `size + 1` blocks. */
  ghost predicate FreeWindow(a: seq<Block>, s: nat, size: nat) {
    s + size < |a| && forall m :: s <= m <= s + size ==> a[m].Free?
  }

  /** The free-space search of `compact_2`: runs of free blocks are
      scanned from the left, never past `cursor`, and the first one at
      least `size + 1` long is chosen. The chosen slot ends at or before
      `cursor` and is free (unless it is `cursor` itself, which only
      happens for a one-block file and leaves the swap a no-op), and no
      window of `size + 1` free blocks starts earlier; `None` means there
      is no such window before the file at all. */
  method FindFreeRun(a: array<Block>, cursor: nat, size: nat) returns (slot: Option<nat>)
    requires cursor < a.Length
    ensures slot.Some? ==> (0 < cursor && slot.value + size <= cursor
      && (slot.value < cursor ==> FreeWindow(a[..], slot.value, size)))
    ensures slot.Some? ==> forall s: nat :: s < slot.value ==> !FreeWindow(a[..], s, size)
    ensures slot.None? ==> forall s: nat :: s < cursor && s + size <= cursor ==> !FreeWindow(a[..], s, size)
  {
    var start := 0;
    while start < cursor
      invariant start <= cursor + 1
      invariant forall s: nat :: s < start && s + size <= cursor ==> !FreeWindow(a[..], s, size)
    {
      while start < cursor && a[start] != Free
        invariant start <= cursor
        invariant forall s: nat :: s < start && s + size <= cursor ==> !FreeWindow(a[..], s, size)
      {
        start := start + 1;
      }
      var end := start;
      while end < cursor && a[end + 1] == Free
        invariant start <= end <= cursor
        invariant forall m :: start < m <= end ==> a[m].Free?
      {
        end := end + 1;
      }
      if end - start >= size {
        return Some(start);
      }
      forall s: nat | start <= s <= end && s + size <= cursor
        ensures !FreeWindow(a[..], s, size)
      {
        assert a[..][end + 1] != Free;
      }
      start := end + 1;
    }
    return None;
  }

  /** The disk after the first `i` swaps of `to + k` with `from + k`. */
  function SwapRanges(s: seq<Block>, to: nat, from: nat, i: nat): (r: seq<Block>)
    requires to + i <= |s| && from + i <= |s|
    ensures |r| == |s|
  {
    if i == 0 then s
    else
      var t := SwapRanges(s, to, from, i - 1);
      t[to + i - 1 := t[from + i - 1]][from + i - 1 := t[to + i - 1]]
  }

  /** Overwriting one element trades one occurrence of the old value for
      one of the new. */
  lemma {:induction false} CountUpdate<T>(s: seq<T>, k: nat, v: T, x: T)
    requires k < |s|
    ensures Count(s[k := v], x) + (if s[k] == x then 1 else 0)
      == Count(s, x) + (if v == x then 1 else 0)
  {
    if k > 0 {
      assert s[k := v][1..] == s[1..][k - 1 := v];
      CountUpdate(s[1..], k - 1, v, x);
    } else {
      assert s[k := v][1..] == s[1..];
    }
  }

  lemma {:induction false} SwapRangesCounts(s: seq<Block>, to: nat, from: nat, i: nat, b: Block)
    requires to + i <= |s| && from + i <= |s|
    ensures Count(SwapRanges(s, to, from, i), b) == Count(s, b)
  {
    if i > 0 {
      SwapRangesCounts(s, to, from, i - 1, b);
      var t := SwapRanges(s, to, from, i - 1);
      var x, y := to + i - 1, from + i - 1;
      CountUpdate(t, x, t[y], b);
      CountUpdate(t[x := t[y]], y, t[x], b);
    }
  }

  /** Swapping ranges only rearranges the disk. */
  lemma SwapRangesPermutes(s: seq<Block>, to: nat, from: nat, i: nat)
    requires to + i <= |s| && from + i <= |s|
    ensures multiset(SwapRanges(s, to, from, i)) == multiset(s)
  {
    forall b
      ensures multiset(SwapRanges(s, to, from, i))[b] == multiset(s)[b]
    {
      SwapRangesCounts(s, to, from, i, b);
      CountIsMultiplicity(SwapRanges(s, to, from, i), b);
      CountIsMultiplicity(s, b);
    }
  }

  lemma {:induction false} SwapRangesFrame(s: seq<Block>, to: nat, from: nat, i: nat, m: nat)
    requires to + i <= |s| && from + i <= |s| && m < |s|
    requires !(to <= m < to + i) && !(from <= m < from + i)
    ensures SwapRanges(s, to, from, i)[m] == s[m]
  {
    if i > 0 { SwapRangesFrame(s, to, from, i - 1, m); }
  }

  lemma {:induction false} SwapRangesTrade(s: seq<Block>, to: nat, from: nat, i: nat, m: nat)
    requires to + i <= from && from + i <= |s| && m < i
    ensures SwapRanges(s, to, from, i)[to + m] == s[from + m]
    ensures SwapRanges(s, to, from, i)[from + m] == s[to + m]
  {
    if m < i - 1 {
      SwapRangesTrade(s, to, from, i - 1, m);
    } else {
      SwapRangesFrame(s, to, from, i - 1, to + m);
      SwapRangesFrame(s, to, from, i - 1, from + m);
    }
  }

  /** `for i in 0..=file_size { result.swap(to + i, from + i) }` with
      `n = file_size + 1`; what that does to the disk is stated by the
      `SwapRanges` lemmas above. */
  method MoveFile(a: array<Block>, to: nat, from: nat, n: nat)
    requires to + n <= a.Length && from + n <= a.Length
    modifies a
    ensures a[..] == SwapRanges(old(a[..]), to, from, n)
    ensures multiset(a[..]) == multiset(old(a[..]))
  {
    ghost var before := a[..];
    for i := 0 to n
      invariant a[..] == SwapRanges(before, to, from, i)
    {
      Swap(a, to + i, from + i);
    }
    SwapRangesPermutes(before, to, from, n);
  }

  /** `result.swap(x, y)`. */
  method Swap(a: array<Block>, x: nat, y: nat)
    requires x < a.Length && y < a.Length
    modifies a
    ensures a[..] == old(a[..])[x := old(a[y])][y := old(a[x])]
  {
    a[x], a[y] := a[y], a[x];
  }

  /** One move attempt of `compact_2`: the search for a free run and,
      when one is found, the swaps. The disk is only rearranged, and a
      file block at position 0 stays where it is. */
  method TryMove(a: array<Block>, cursor: nat, size: nat)
    requires cursor + size < a.Length
    modifies a
    ensures multiset(a[..]) == multiset(old(a[..]))
    ensures old(a[0]).File? ==> a[0] == old(a[0])
  {
    var slot := FindFreeRun(a, cursor, size);
    if slot.Some? {
      var to := slot.value;
      ghost var before := a[..];
      assert a[0].File? ==> to != 0 by {
        if to == 0 {
          assert FreeWindow(a[..], to, size) ==> a[0].Free?;
        }
      }
      MoveFile(a, to, cursor, size + 1);
      if before[0].File? {
        SwapRangesFrame(before, to, cursor, size + 1, 0);
        assert a[..][0] == before[0];
      }
    }
  }

  /** `compact_2`: files are taken from the right, each file id at most
      once (`tried` lists them in order), and moved whole into the
      leftmost free run before them that is long enough. Only swaps touch
      the disk, so the result is a rearrangement of the input; an empty
      disk underflows `blocks.len() - 1`, and a disk whose first block is
      a file never lets the cursor step below block 0. */
  method Compact2(blocks: seq<Block>) returns (r: Option<seq<Block>>, ghost tried: seq<Block>)
    ensures blocks == [] ==> r.None?
    ensures blocks != [] && blocks[0].File? ==> r.Some?
    ensures r.Some? ==> |r.value| == |blocks| && multiset(r.value) == multiset(blocks)
    ensures forall p, q :: 0 <= p < q < |tried| ==> tried[p] != tried[q]
  {
    tried := [];
    if |blocks| == 0 {
      return None, tried;
    }
    var cursor: nat := |blocks| - 1;
    var result := new Block[|blocks|](k requires 0 <= k < |blocks| => blocks[k]);
    assert result[..] == blocks;
    var visited: set<Block> := {};
    while cursor > 0
      invariant cursor < result.Length == |blocks|
      invariant multiset(result[..]) == multiset(blocks)
      invariant blocks[0].File? ==> result[0] == blocks[0]
      invariant forall b :: b in tried <==> b in visited
      invariant forall p, q :: 0 <= p < q < |tried| ==> tried[p] != tried[q]
      decreases cursor
    {
      ghost var top := cursor;
      while result[cursor] == Free
        invariant cursor <= top
        decreases cursor
      {
        if cursor == 0 {
          return None, tried;
        }
        cursor := cursor - 1;
      }
      var endIndex := cursor;
      var current := blocks[cursor];
      while cursor > 0 && blocks[cursor - 1] == current
        invariant cursor <= endIndex
        decreases cursor
      {
        cursor := cursor - 1;
      }
      if current in visited {
        cursor := if cursor > 0 then cursor - 1 else 0;
        continue;
      }
      visited := visited + {current};
      tried := tried + [current];
      var size := endIndex - cursor;
      TryMove(result, cursor, size);
      if cursor == 0 {
        break;
      }
      cursor := cursor - 1;
    }
    return Some(result[..]), tried;
  }

  /** A disk map whose first digit is not zero starts with a block of
      file 0. */
  lemma {:induction false} ToBlocksStartsWithFile(input: string)
    requires AllDigits(input) && input != [] && input[0] != '0'
    ensures ToBlocks(input).value != [] && ToBlocks(input).value[0] == File(0)
  {
    var last := |input| - 1;
    assert ToDigit(input[last]) == Some(DigitOf(input[last]));
    if last == 0 {
      assert Repeat(File(0), DigitOf(input[0]))[0] == File(0) by {
        RepeatElements(File(0), DigitOf(input[0]));
      }
    } else {
      ToBlocksStartsWithFile(input[..last]);
    }
  }

  lemma {:induction false} RepeatElements(b: Block, d: nat)
    ensures forall k :: 0 <= k < d ==> Repeat(b, d)[k] == b
  {
    if d > 0 { RepeatElements(b, d - 1); }
  }

  /** `solve_part_2`: the block checksum of the disk after whole-file
      compaction; `None` where the source panics. */
  method SolvePart2(input: string) returns (r: Option<nat>)
    ensures r.Some? ==> AllDigits(input)
    ensures AllDigits(input) && input != [] && input[0] != '0' ==> r.Some?
    ensures r.Some? ==> (exists disk: seq<Block> ::
                           multiset(disk) == multiset(ToBlocks(input).value) && r.value == BlockChecksum(disk))
  {
    match ToBlocks(input) {
      case None =>
        return None;
      case Some(blocks) =>
        if input != [] && input[0] != '0' {
          ToBlocksStartsWithFile(input);
        }
        var compacted, _ := Compact2(blocks);
        if compacted.None? {
          return None;
        }
        assert multiset(compacted.value) == multiset(ToBlocks(input).value);
        return Some(BlockChecksum(compacted.value));
    }
  }
}
