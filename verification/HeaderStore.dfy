/** The header store as the source keeps it: chain objects in a dictionary and one file per chain,
    all updated in place (electronfittexxcoin/blockchain.py:160-433). Files are sequences of whole
    header records, and the dictionary and the file system are fields of one store. */
module HeaderStore {
  import opened HeaderTree

  /** `blockchain_headers` for the root, `forks/fork_<parent>_<base>` for the others. */
  datatype Path = Main | Fork(parent: nat, base: nat)

  /** Python's truncate at an offset, which may also extend with zeros. */
  function CutAt(file: seq<Record>, offset: nat): (r: seq<Record>)
    ensures |r| == offset
  {
    if offset <= |file| then file[..offset] else file + seq(offset - |file|, _ => NULL)
  }

  /** Python's write at an offset: a gap is filled with zeros, what lies beyond stays. */
  function WriteAt(file: seq<Record>, data: seq<Record>, offset: nat): seq<Record> {
    if data == [] then file
    else CutAt(file, offset) + data + (if offset + |data| <= |file| then file[offset + |data|..] else [])
  }

  function Written(file: seq<Record>, data: seq<Record>, offset: nat, truncate: bool): seq<Record> {
    WriteAt(if truncate && offset != |file| then CutAt(file, offset) else file, data, offset)
  }

  /** Every record of a file after a write: the data where it was written, zeros in a gap, the old
      records elsewhere, and nothing beyond the data if the write truncated. */
  lemma WrittenMeaning(file: seq<Record>, data: seq<Record>, offset: nat, truncate: bool, i: nat)
    requires data != []
    ensures
      var now := Written(file, data, offset, truncate);
      var end := offset + |data|;
      && |now| == (if !(truncate && offset != |file|) && end <= |file| then |file| else end)
      && (i < |now| ==>
            now[i] == (if offset <= i < end then data[i - offset] else if i < |file| then file[i] else NULL))
  {}

  lemma WrittenInside(file: seq<Record>, data: seq<Record>, offset: nat)
    requires offset <= |file|
    ensures Written(file, data, offset, true) == file[..offset] + data
  {}

  class Blockchain {
    var base: nat
    var parentBase: Option<nat>
    var size: nat

    constructor (base: nat, parentBase: Option<nat>, size: nat)
      ensures this.base == base && this.parentBase == parentBase && this.size == size
    {
      this.base, this.parentBase, this.size := base, parentBase, size;
    }

    function Path(): Path
      reads this
    {
      if parentBase.None? then Main else Fork(parentBase.value, base)
    }

    function Height(): int
      reads this
    {
      base + size - 1
    }
  }

  /** How a swap ends: a read of negative length is an exception. */
  datatype Outcome = Done | ReadFailed

  class Store {
    var chains: map<nat, Blockchain>
    var files: map<Path, seq<Record>>

    /** The chain filed under k has base k, hangs below an earlier one, and knows its file's size. */
    ghost predicate Filed(k: nat)
      requires k in chains
      reads this, chains[k]
    {
      var b := chains[k];
      && b.base == k
      && (b.parentBase.None? <==> k == 0)
      && (b.parentBase.Some? ==> b.parentBase.value < k && b.parentBase.value in chains)
      && b.Path() in files
      && b.size == |files[b.Path()]|
    }

    ghost predicate Valid()
      reads this, chains.Values
    {
      && 0 in chains
      && forall k {:trigger Filed(k)} :: k in chains ==> chains[k] in chains.Values && Filed(k)
    }

    ghost function ChainAt(k: nat): Chain
      requires k in chains && Filed(k)
      reads this, chains[k]
    {
      Chain(k, chains[k].parentBase, files[chains[k].Path()])
    }

    /** What the store holds, as a tree of chains. */
    ghost function View(): (v: Tree)
      reads this, chains.Values
      requires Valid()
      ensures Linked(v) && v.Keys == chains.Keys
      ensures forall k {:trigger v[k]} :: k in chains ==> chains[k] in chains.Values && Filed(k) && v[k] == ChainAt(k)
    {
      assert forall k :: k in chains ==> Filed(k);
      map k | k in chains :: ChainAt(k)
    }

    ghost predicate Holds(b: Blockchain)
      reads this, b
    {
      b.base in chains && chains[b.base] == b
    }

    ghost predicate KeptAt(v: Tree, k: nat)
      requires k in chains && k in v
      reads this, chains[k]
    {
      Filed(k) && ChainAt(k) == v[k]
    }

    /** The store holds exactly the tree v. */
    ghost predicate Keeps(v: Tree)
      reads this, chains.Values
    {
      && v.Keys == chains.Keys
      && forall k {:trigger KeptAt(v, k)} :: k in chains ==> chains[k] in chains.Values && KeptAt(v, k)
    }

    lemma KeepsView()
      requires Valid()
      ensures Keeps(View())
    {
      var v := View();
      forall k | k in chains ensures KeptAt(v, k) { assert v[k] == ChainAt(k); }
    }

    lemma EntryMeaning(k: nat)
      requires Valid() && k in chains
      ensures chains[k] in chains.Values && Holds(chains[k]) && chains[k].base == k
      ensures chains[k].size == |View()[k].records|
    {
      assert Filed(k) && View()[k] == ChainAt(k);
    }

    lemma ViewIs(w: Tree)
      requires Keeps(w) && 0 in chains
      ensures Valid() && View() == w
    {
      forall k | k in chains ensures Filed(k) && ChainAt(k) == w[k] { assert KeptAt(w, k); }
      assert Valid();
      var v := View();
      assert forall k :: k in chains ==> v[k] == w[k];
    }

    /** Writes records into the chain's file and refreshes the cached size. */
    method Write(b: Blockchain, data: seq<Record>, offset: nat, truncate: bool)
      requires b.Path() in files && b.size == |files[b.Path()]|
      modifies this`files, b`size
      ensures files == old(files)[b.Path() := Written(old(files)[b.Path()], data, offset, truncate)]
      ensures b.size == |files[b.Path()]|
    {
      var file := files[b.Path()];
      if truncate && offset != b.size { file := CutAt(file, offset); }
      files := files[b.Path() := WriteAt(file, data, offset)];
      b.size := |files[b.Path()]|;
    }

    /** Object fields, dictionary entries and files once the chain based at s has changed places with
        its parent, where v is what the store held before. */
    ghost predicate PairPlaced(b: Blockchain, parent: Blockchain, v: Tree, s: nat)
      requires Linked(v) && s in v && s != 0 && Covered(v, s)
      reads this, b, parent
    {
      var p := v[s].parent.value;
      && b.base == p && b.parentBase == v[p].parent && Holds(b)
      && parent.base == s && parent.parentBase == Some(p) && Holds(parent)
      && b.Path() in files && files[b.Path()] == v[p].records[..s - p] + v[s].records
      && parent.Path() in files && files[parent.Path()] == v[p].records[s - p..]
      && b.size == |files[b.Path()]| && parent.size == |files[parent.Path()]|
    }

    /** An exchanged pair among otherwise unchanged chains is the exchanged tree. */
    lemma ExchangeMeaning(b: Blockchain, parent: Blockchain, v: Tree, s: nat)
      requires Linked(v) && s in v && s != 0 && Covered(v, s) && v.Keys == chains.Keys
      requires PairPlaced(b, parent, v, s)
      requires forall k {:trigger KeptAt(v, k)} :: k in chains && k != s && k != v[s].parent.value ==> KeptAt(v, k)
      ensures Keeps(Exchanged(v, s))
    {
      var w := Exchanged(v, s);
      var p := v[s].parent.value;
      forall k | k in chains ensures KeptAt(w, k) {
        if k != s && k != p { assert KeptAt(v, k); }
      }
    }

    /** The two branches change places: file contents, bases, parents, sizes and dictionary entries. */
    method Exchange(b: Blockchain, parent: Blockchain, parentBranch: nat)
      requires b != parent && b.parentBase == Some(parent.base) && parent.base < b.base && Holds(b) && Holds(parent)
      requires b.Path() in files && parent.Path() in files && b.Path() != parent.Path()
      requires b.size == |files[b.Path()]| && parent.size == |files[parent.Path()]|
      requires parentBranch == parent.base + parent.size - b.base && b.size > parentBranch
      modifies this, b, parent
      ensures b.base == old(parent.base) && b.parentBase == old(parent.parentBase)
      ensures parent.base == old(b.base) && parent.parentBase == old(b.parentBase)
      ensures chains == old(chains)[b.base := b][parent.base := parent]
      ensures b.Path() == old(parent.Path()) && parent.Path() == old(b.Path())
      ensures files.Keys == old(files.Keys)
      ensures files[b.Path()] == old(files[parent.Path()][..b.base - parent.base] + files[b.Path()])
      ensures files[parent.Path()] == old(files[parent.Path()][b.base - parent.base..])
      ensures forall q :: q in files && q != b.Path() && q != parent.Path() ==> files[q] == old(files[q])
      ensures b.size == |files[b.Path()]| && parent.size == |files[parent.Path()]|
    {
      var parentBase, base := b.parentBase.value, b.base;
      var k := base - parentBase;
      var mine := files[b.Path()];
      var theirs := files[parent.Path()];
      var theirBranch := theirs[k..];
      Write(b, theirBranch, 0, true);
      assert files[b.Path()] == theirBranch;
      WrittenInside(theirs, mine, k);
      Write(parent, mine, k, true);

      b.parentBase, parent.parentBase := parent.parentBase, Some(parentBase);
      b.base, parent.base := parent.base, base;
      b.size, parent.size := parent.size, parentBranch;
      chains := chains[b.base := b][parent.base := parent];
    }

    /** The exchange of one pair, measured by the tree. */
    method ExchangePair(b: Blockchain, parent: Blockchain, parentBranch: nat, ghost v: Tree)
      requires Linked(v) && Keeps(v) && Holds(b) && Holds(parent)
      requires b.base != 0 && v[b.base].parent == Some(parent.base) && Covered(v, b.base)
      requires parentBranch == parent.base + parent.size - b.base && b.size > parentBranch
      modifies this, b, parent
      ensures Holds(b) && PairPlaced(b, parent, v, old(b.base))
      ensures chains == old(chains[parent.base := b][b.base := parent])
      ensures files.Keys == old(files.Keys)
      ensures forall q :: q in files && q != old(b.Path()) && q != old(parent.Path()) ==> files[q] == old(files[q])
    {
      ghost var s, p := b.base, parent.base;
      assert KeptAt(v, s) && KeptAt(v, p);
      Exchange(b, parent, parentBranch);
    }

    /** Every chain of the dictionary `was` is now filed where a possible exchange at s puts its base, and
        there are no others. */
    ghost predicate Refiled(was: map<nat, Blockchain>, v: Tree, s: nat)
      requires Linked(v) && s in v
      reads this
    {
      && chains.Values <= was.Values
      && forall k {:trigger was[k]} :: k in was ==>
        PlaceAfterSwap(v, s, k) in chains && chains[PlaceAfterSwap(v, s, k)] == was[k]
    }

    lemma StaysAsItIs(s: nat)
      requires Valid() && s in chains && !Swaps(View(), s)
      ensures View() == SwapResult(View(), s) && Refiled(chains, View(), s)
    {}

    lemma ExchangeRefiled(was: map<nat, Blockchain>, v: Tree, s: nat)
      requires Linked(v) && s in v && Swaps(v, s) && s in was && v[s].parent.value in was
      requires chains == was[v[s].parent.value := was[s]][s := was[v[s].parent.value]]
      ensures Refiled(was, v, s)
    {
      EntriesRelocated(was, s, v[s].parent.value);
    }

    /** The exchange as a step on the tree. The paths of all other chains are unchanged, so no file
        needs renaming. */
    method ExchangeBranches(b: Blockchain, parent: Blockchain, parentBranch: nat, ghost v: Tree)
      requires Linked(v) && Keeps(v) && Holds(b) && Holds(parent)
      requires Swaps(v, b.base) && v[b.base].parent == Some(parent.base) && parentBranch == ParentBranch(v, b.base)
      modifies this, b, parent
      ensures Holds(b) && Valid() && View() == Exchanged(v, old(b.base)) && Refiled(old(chains), v, old(b.base))
    {
      ghost var s, p := b.base, parent.base;
      assert KeptAt(v, s) && KeptAt(v, p);
      ExchangePair(b, parent, parentBranch, v);
      forall k | k in chains && k != s && k != p ensures KeptAt(v, k) {
        assert old(KeptAt(v, k));
        assert chains[k] == old(chains[k]);
      }
      ExchangeMeaning(b, parent, v, s);
      ExchangeRefiled(old(chains), v, s);
      ViewIs(Exchanged(v, s));
    }

    /** The sizes of the chain objects measure the parent's own branch above the fork point. */
    lemma ParentMeasured(b: Blockchain, v: Tree)
      requires Linked(v) && Keeps(v) && Holds(b)
      ensures b.parentBase.None? <==> b.base == 0
      ensures b.parentBase.Some? ==>
                && v[b.base].parent == b.parentBase && b.parentBase.value in chains
                && Holds(chains[b.parentBase.value]) && chains[b.parentBase.value].base == b.parentBase.value
                && (var parentBranch := chains[b.parentBase.value].Height() - b.base + 1;
                    && parentBranch == ParentBranch(v, b.base)
                    && (Covered(v, b.base) <==> 0 <= parentBranch)
                    && (Swaps(v, b.base) <==> 0 <= parentBranch < b.size))
    {
      assert KeptAt(v, b.base);
      if b.parentBase.Some? { assert KeptAt(v, b.parentBase.value); }
    }

    /** If the chain's own branch is longer than its parent's above the fork point, the two change
        places. A parent that ends below the fork point has a branch of negative size: reading it fails
        before anything is written. */
    method SwapWithParent(b: Blockchain) returns (r: Outcome)
      requires Valid() && Holds(b)
      modifies this, chains.Values
      ensures Valid() && Holds(b)
      ensures View() == SwapResult(old(View()), old(b.base)) && Refiled(old(chains), old(View()), old(b.base))
      ensures r == ReadFailed <==> !Covered(old(View()), old(b.base))
    {
      ghost var v, s := View(), b.base;
      KeepsView();
      ParentMeasured(b, v);
      if !Swaps(v, s) { StaysAsItIs(s); }
      if b.parentBase.None? { return Done; }
      var parent := chains[b.parentBase.value];
      var parentBranch := parent.Height() - b.base + 1;
      if parentBranch >= b.size { return Done; }
      if parentBranch < 0 { return ReadFailed; }
      ExchangeBranches(b, parent, parentBranch, v);
      r := Done;
    }

    /** The stored header for a height, following parents below the base. */
    method ReadHeader(b: Blockchain, height: int) returns (r: Option<Record>)
      requires Valid() && Holds(b)
      ensures r == ReadAt(View(), b.base, height)
      decreases b.base
    {
      ghost var v := View();
      KeepsView();
      assert KeptAt(v, b.base);
      if height < 0 { return None; }
      if height < b.base {
        assert KeptAt(v, b.parentBase.value);
        r := ReadHeader(chains[b.parentBase.value], height);
        return;
      }
      if height > b.Height() { return None; }
      var h := files[b.Path()][height - b.base];
      return if h == NULL then None else Some(h);
    }

    /** A header written at the end of a chain's file, as a step on the tree. */
    method AppendHeader(b: Blockchain, r: Record, ghost v: Tree)
      requires Linked(v) && Keeps(v) && Holds(b)
      modifies this`files, b`size
      ensures Keeps(Appended(v, b.base, r))
    {
      assert KeptAt(v, b.base);
      assert Written(v[b.base].records, [r], b.size, true) == v[b.base].records + [r];
      OverlayData(b, [r], b.size, true, v);
    }

    /** Appends a header to a chain, which may then change places with its parent. */
    method SaveHeader(b: Blockchain, r: Record, height: nat) returns (outcome: Outcome)
      requires Valid() && Holds(b)
      requires height - b.base == b.size
      modifies this, chains.Values
      ensures Valid() && Holds(b)
      ensures View() == SwapResult(old(Appended(View(), b.base, r)), old(b.base))
      ensures Refiled(old(chains), old(Appended(View(), b.base, r)), old(b.base))
      ensures outcome == ReadFailed <==> !Covered(old(View()), old(b.base))
    {
      ghost var v := View();
      KeepsView();
      assert KeptAt(v, b.base);
      AppendHeader(b, r, v);
      ViewIs(Appended(v, b.base, r));
      outcome := SwapWithParent(b);
    }

    /** A new chain holding one header, hung below `parent`; the parent must already hold a header at
        that height, so the new branch is not longer and does not change places with it. */
    method CreateFork(parent: Blockchain, r: Record, height: nat) returns (b: Blockchain)
      requires Valid() && Holds(parent)
      requires parent.base < height <= parent.Height() && height !in chains
      modifies this
      ensures Valid() && Holds(b) && fresh(b) && chains == old(chains)[height := b]
      ensures fresh(chains.Values - old(chains.Values))
      ensures View() == old(Forked(View(), parent.base, height, r))
    {
      ghost var v := View();
      KeepsView();
      b := NewFork(parent.base, r, height, v);
      assert parent.Height() - b.base + 1 >= b.size;
      ViewIs(Forked(v, parent.base, height, r));
    }

    /** Creates the chain object and its file, stores the header and enters it in the dictionary. */
    method NewEntry(parentBase: nat, r: Record, height: nat) returns (b: Blockchain)
      modifies this
      ensures fresh(b) && b.base == height && b.parentBase == Some(parentBase) && b.size == 1
      ensures files == old(files)[Fork(parentBase, height) := [r]]
      ensures chains == old(chains)[height := b] && fresh(chains.Values - old(chains.Values))
    {
      b := new Blockchain(height, Some(parentBase), 0);
      files := files[b.Path() := []];
      Write(b, [r], 0, true);
      assert Written([], [r], 0, true) == [r];
      chains := chains[height := b];
      ValuesAdded(old(chains), height, b);
    }

    /** A new entry as a step on the tree. */
    method NewFork(parentBase: nat, r: Record, height: nat, ghost v: Tree) returns (b: Blockchain)
      requires Linked(v) && Keeps(v) && parentBase in chains && parentBase < height && height !in chains
      modifies this
      ensures fresh(b) && b.base == height && b.size == 1 && chains == old(chains)[height := b]
      ensures fresh(chains.Values - old(chains.Values))
      ensures Keeps(Forked(v, parentBase, height, r))
    {
      b := NewEntry(parentBase, r, height);
      assert chains.Keys == v.Keys + {height};
      forall k | k in v ensures KeptAt(v, k) {
        assert old(KeptAt(v, k));
        assert chains[k].Path() != b.Path();
      }
      NewForkMeaning(b, parentBase, r, height, v);
    }

    /** A new entry among otherwise unchanged chains is the tree with one more chain. */
    lemma NewForkMeaning(b: Blockchain, parentBase: nat, r: Record, height: nat, v: Tree)
      requires Linked(v) && height !in v && parentBase in v && parentBase < height
      requires chains.Keys == v.Keys + {height} && chains[height] == b
      requires b.base == height && b.parentBase == Some(parentBase) && b.size == 1
      requires b.Path() in files && files[b.Path()] == [r]
      requires forall k {:trigger KeptAt(v, k)} :: k in v ==> KeptAt(v, k)
      ensures Keeps(Forked(v, parentBase, height, r))
    {
      var w := Forked(v, parentBase, height, r);
      forall k | k in chains ensures KeptAt(w, k) {
        if k != height { assert KeptAt(v, k); }
      }
    }

    /** Writes a chunk of consecutive headers. Records below the chain's base are dropped; the file is
        cut behind the chunk only above the checkpoint. */
    method SaveChunk(b: Blockchain, baseHeight: nat, chunk: seq<Record>, checkpoint: nat)
      returns (outcome: Outcome)
      requires Valid() && Holds(b)
      modifies this, chains.Values
      ensures Valid() && Holds(b)
      ensures View() == SwapResult(old(ChunkOverlaid(View(), b.base, baseHeight, chunk, checkpoint)), old(b.base))
      ensures Refiled(old(chains), old(ChunkOverlaid(View(), b.base, baseHeight, chunk, checkpoint)), old(b.base))
      ensures outcome == ReadFailed <==> !Covered(old(View()), old(b.base))
    {
      ghost var v := View();
      KeepsView();
      OverlayChunk(b, baseHeight, chunk, checkpoint, v);
      ViewIs(ChunkOverlaid(v, b.base, baseHeight, chunk, checkpoint));
      outcome := SwapWithParent(b);
    }

    method OverlayChunk(b: Blockchain, baseHeight: nat, chunk: seq<Record>, checkpoint: nat, ghost v: Tree)
      requires Linked(v) && Keeps(v) && Holds(b)
      modifies this`files, b`size
      ensures Keeps(ChunkOverlaid(v, b.base, baseHeight, chunk, checkpoint))
    {
      var offset, data := ClipChunk(b.base, baseHeight, chunk);
      var topHeight := baseHeight + |data| - 1;
      OverlayData(b, data, offset, topHeight > checkpoint, v);
    }

    /** Offset and data of a chunk relative to a chain's base. */
    static method ClipChunk(base: nat, baseHeight: nat, chunk: seq<Record>) returns (offset: nat, data: seq<Record>)
      ensures offset == ChunkOffset(base, baseHeight) && data == ChunkData(base, baseHeight, chunk)
    {
      var distance := baseHeight - base;
      offset, data := 0, chunk;
      if distance < 0 {
        data := if -distance <= |chunk| then chunk[-distance..] else [];
      } else {
        offset := distance;
      }
    }

    /** A write to one chain's file, as a step on the tree. */
    method OverlayData(b: Blockchain, data: seq<Record>, offset: nat, truncate: bool, ghost v: Tree)
      requires Linked(v) && Keeps(v) && Holds(b)
      modifies this`files, b`size
      ensures Keeps(Overlaid(v, b.base, data, offset, truncate))
    {
      ghost var s := b.base;
      assert KeptAt(v, s);
      Write(b, data, offset, truncate);
      ghost var w := Overlaid(v, s, data, offset, truncate);
      assert KeptAt(w, s);
      forall k | k in chains && k != s ensures KeptAt(w, k) {
        assert old(KeptAt(v, k));
        assert chains[k] != b && chains[k].Path() != b.Path();
      }
    }
  }

  ghost function Overlaid(v: Tree, s: nat, data: seq<Record>, offset: nat, truncate: bool): (w: Tree)
    requires Linked(v) && s in v
    ensures Linked(w) && w.Keys == v.Keys && (Covered(v, s) <==> Covered(w, s))
  {
    v[s := v[s].(records := Written(v[s].records, data, offset, truncate))]
  }

  function ChunkOffset(base: nat, baseHeight: nat): nat {
    if baseHeight >= base then baseHeight - base else 0
  }

  /** The part of a chunk that lies at or above the base. */
  function ChunkData(base: nat, baseHeight: nat, chunk: seq<Record>): seq<Record> {
    if baseHeight >= base then chunk else if base - baseHeight <= |chunk| then chunk[base - baseHeight..] else []
  }

  /** The tree after a chunk starting at baseHeight is written into the chain based at s. */
  ghost function ChunkOverlaid(v: Tree, s: nat, baseHeight: nat, chunk: seq<Record>, checkpoint: nat): (w: Tree)
    requires Linked(v) && s in v
    ensures Linked(w) && w.Keys == v.Keys && (Covered(v, s) <==> Covered(w, s))
  {
    var data := ChunkData(s, baseHeight, chunk);
    Overlaid(v, s, data, ChunkOffset(s, baseHeight), baseHeight + |data| - 1 > checkpoint)
  }

  /** Earlier chains never read through the chain based at s. */
  lemma {:induction false} EarlierUnchanged(v: Tree, w: Tree, s: nat, k: nat, height: int)
    requires Linked(v) && Linked(w) && v.Keys == w.Keys && k in v && k < s
    requires forall q :: q in v && q != s ==> w[q] == v[q]
    ensures ReadAt(w, k, height) == ReadAt(v, k, height)
    decreases k
  {
    if 0 <= height < k { EarlierUnchanged(v, w, s, v[k].parent.value, height); }
  }

  /** After a chunk is written, the chain gives the chunk's headers at its heights; above them nothing if
      the chunk ends above the checkpoint; and everywhere else what it gave before. */
  lemma ChunkMeaning(v: Tree, s: nat, baseHeight: nat, chunk: seq<Record>, checkpoint: nat, height: nat)
    requires Linked(v) && s in v && ChunkData(s, baseHeight, chunk) != []
    ensures
      var now := ReadAt(ChunkOverlaid(v, s, baseHeight, chunk, checkpoint), s, height);
      var end := baseHeight + |chunk|;
      if baseHeight <= height < end && s <= height then
        now == if chunk[height - baseHeight] == NULL then None else Some(chunk[height - baseHeight])
      else if end <= height && baseHeight + |ChunkData(s, baseHeight, chunk)| - 1 > checkpoint then now == None
      else now == ReadAt(v, s, height)
  {
    var w := ChunkOverlaid(v, s, baseHeight, chunk, checkpoint);
    var (data, offset) := (ChunkData(s, baseHeight, chunk), ChunkOffset(s, baseHeight));
    if height < s {
      EarlierUnchanged(v, w, s, v[s].parent.value, height);
    } else {
      OverlaidRecord(v, s, data, offset, baseHeight + |data| - 1 > checkpoint, height);
    }
  }

  /** What a chain gives above its base after a write to its file. */
  lemma OverlaidRecord(v: Tree, s: nat, data: seq<Record>, offset: nat, truncate: bool, height: nat)
    requires Linked(v) && s in v && s <= height && data != []
    ensures
      var now := ReadAt(Overlaid(v, s, data, offset, truncate), s, height);
      var (i, end) := (height - s, offset + |data|);
      if offset <= i < end then now == if data[i - offset] == NULL then None else Some(data[i - offset])
      else if end <= i && truncate && offset != |v[s].records| then now == None
      else now == ReadAt(v, s, height)
  {
    WrittenMeaning(v[s].records, data, offset, truncate, height - s);
    ReadOwn(v, s, height);
    ReadOwn(Overlaid(v, s, data, offset, truncate), s, height);
  }
}
