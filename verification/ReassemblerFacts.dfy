/** What `push_substring` guarantees about the stream that the substrings were cut from. */
module ReassemblerFacts {
  import opened Words
  import opened ByteStreams
  import opened StreamReassemblers

  /** The byte known for stream index `p`, assembled or waiting. */
  function At(r: Reassembler, p: nat): Option<byte>
  {
    if p < |r.output.history| then Some(r.output.history[p])
    else if p in r.pending then Some(r.pending[p])
    else None
  }

  /** A push is "latest write wins" on the window `[bytes_written, bytes_read + capacity)`, leaves every
      other index alone, and stops the output at the first index for which no byte is known. */
  lemma PushIsLatestWrite(r: Reassembler, data: seq<byte>, index: uint64, last: bool, p: nat)
    requires r.Ok()
    ensures var r' := r.Push(data, index, last);
            && At(r', p) ==
               (if |r.output.history| <= p < r.output.read + r.output.capacity && index <= p < index + |data|
                then Some(data[p - index]) else At(r, p))
            && At(r', |r'.output.history|) == None
  {
    hide RunEnd;
    var lo, hi := |r.output.history|, r.Limit();
    var m := Stored(r.pending, data, index, lo, hi);
    var e := RunEnd(m, lo, hi);
    StoredAt(r.pending, data, index, lo, hi, p);
    RunAt(m, lo, e, p);
  }

  lemma StoredAt(m: map<nat, byte>, data: seq<byte>, index: nat, lo: nat, hi: nat, p: nat)
    ensures var m' := Stored(m, data, index, lo, hi);
            if lo <= p < hi && Covers(data, index, p) then p in m' && m'[p] == data[p - index]
            else (p in m' <==> p in m) && (p in m ==> m'[p] == m[p])
  {
  }

  lemma RunAt(m: map<nat, byte>, lo: nat, e: nat, p: nat)
    requires lo <= e && forall q :: lo <= q < e ==> q in m
    ensures |RunBytes(m, lo, e)| == e - lo && (lo <= p < e ==> RunBytes(m, lo, e)[p - lo] == m[p])
    ensures p in From(m, e) <==> p in m && e <= p
    ensures p in From(m, e) ==> From(m, e)[p] == m[p]
  {
  }

  /** A push that has nothing inside the window changes nothing but, possibly, the flags of the end. */
  lemma PushMisses(r: Reassembler, data: seq<byte>, index: uint64, last: bool)
    requires r.Ok() && (data == [] || index >= r.Limit() || index + |data| <= |r.output.history|)
    ensures var r' := r.Push(data, index, last);
            && r'.output.history == r.output.history && r'.pending == r.pending
            && (!last || r.eof ==> r' == r.Push([], 0, false))
  {
    var lo, hi := |r.output.history|, r.Limit();
    assert Stored(r.pending, data, index, lo, hi) == r.pending;
    assert Stored(r.pending, [], 0, lo, hi) == r.pending;
    assert From(r.pending, lo) == r.pending;
  }

  /** Everything known agrees with the stream `s`. */
  ghost predicate Agrees(r: Reassembler, s: seq<byte>)
  {
    r.output.history <= s && forall p <- r.pending :: p < |s| && r.pending[p] == s[p]
  }

  /** `data` at `index` is an excerpt of `s`. */
  ghost predicate Excerpt(data: seq<byte>, index: nat, s: seq<byte>)
  {
    data == [] || (index + |data| <= |s| && data == s[index..index + |data|])
  }

  lemma PushAgrees(r: Reassembler, data: seq<byte>, index: uint64, last: bool, s: seq<byte>)
    requires r.Ok() && Agrees(r, s) && Excerpt(data, index, s)
    ensures Agrees(r.Push(data, index, last), s)
  {
    hide Reassembler.Push;
    var r' := r.Push(data, index, last);
    forall p: nat | At(r', p).Some?
      ensures p < |s| && At(r', p) == Some(s[p])
    {
      PushIsLatestWrite(r, data, index, last, p);
    }
    KnownIsPrefix(r', s);
  }

  lemma KnownIsPrefix(r: Reassembler, s: seq<byte>)
    requires r.Ok()
    requires forall p: nat | At(r, p).Some? :: p < |s| && At(r, p) == Some(s[p])
    ensures Agrees(r, s)
  {
    var h := r.output.history;
    if h != [] {
      assert At(r, |h| - 1).Some?;
    }
    forall p | 0 <= p < |h|
      ensures h[p] == s[p]
    {
      assert At(r, p) == Some(h[p]);
    }
    forall p <- r.pending
      ensures p < |s| && r.pending[p] == s[p]
    {
      assert At(r, p) == Some(r.pending[p]);
    }
  }

  /** Everything known up to and including index `|s|` agrees with the stream `s`: nothing is known for `|s|` itself. */
  ghost predicate AgreesBelow(r: Reassembler, s: seq<byte>)
  {
    r.output.history <= s && |s| !in r.pending && forall p <- r.pending :: p < |s| ==> r.pending[p] == s[p]
  }

  /** Pieces of the stream, and pieces that leave a gap behind it, keep that so. */
  lemma PushAgreesBelow(r: Reassembler, data: seq<byte>, index: uint64, last: bool, s: seq<byte>)
    requires r.Ok() && AgreesBelow(r, s) && (Excerpt(data, index, s) || index > |s|)
    ensures AgreesBelow(r.Push(data, index, last), s)
  {
    hide Reassembler.Push;
    var r' := r.Push(data, index, last);
    forall p: nat | p <= |s| && At(r', p).Some?
      ensures p < |s| && At(r', p) == Some(s[p])
    {
      PushIsLatestWrite(r, data, index, last, p);
    }
    KnownIsPrefixBelow(r', s);
  }

  lemma KnownIsPrefixBelow(r: Reassembler, s: seq<byte>)
    requires r.Ok()
    requires forall p: nat | p <= |s| && At(r, p).Some? :: p < |s| && At(r, p) == Some(s[p])
    ensures AgreesBelow(r, s)
  {
    var h := r.output.history;
    assert At(r, |s|) == None;
    forall p | 0 <= p < |h|
      ensures h[p] == s[p]
    {
      assert At(r, p) == Some(h[p]);
    }
    forall p <- r.pending | p < |s|
      ensures r.pending[p] == s[p]
    {
      assert At(r, p) == Some(r.pending[p]);
    }
  }

  /** The flag and the output agree on where the stream `s` ends, and if its end was announced, its last byte is known:
      without that, the next byte could end the output too soon. */
  ghost predicate EndExact(r: Reassembler, s: seq<byte>)
  {
    && (r.eof ==> |r.output.history| == |s| || (|s| >= 1 && |s| - 1 in r.pending))
    && (r.output.ended <==> r.eof && |r.output.history| == |s|)
  }

  /** The announcement of the end can be trusted: it lies inside the window, and it either brings the
      last byte along or finds it already there.  The end itself is not stored anywhere. */
  predicate EndAnnouncementOk(r: Reassembler, data: seq<byte>, index: nat)
  {
    && index + |data| <= r.Limit()
    && (data != [] || index <= |r.output.history| || index - 1 in r.pending)
  }

  /** What can be said of the new state's end without looking inside a push: the last byte is known exactly if it was
      known or has just come, inside the window. */
  lemma LastByteKnown(r: Reassembler, data: seq<byte>, index: uint64, last: bool, s: seq<byte>)
    requires r.Ok() && Agrees(r, s) && Excerpt(data, index, s) && s != []
    ensures var r' := r.Push(data, index, last);
            At(r', |s| - 1).Some? <==> At(r, |s| - 1).Some? || (|s| <= r.Limit() && Covers(data, index, |s| - 1))
  {
    PushIsLatestWrite(r, data, index, last, |s| - 1);
  }

  lemma NothingPendingAtEnd(r: Reassembler, s: seq<byte>)
    requires r.Ok() && Agrees(r, s)
    ensures |r.output.history| == |s| ==> r.pending == map[]
    ensures s != [] ==> (At(r, |s| - 1).Some? <==> |r.output.history| == |s| || |s| - 1 in r.pending)
  {
  }

  lemma EndFlags(r: Reassembler, data: seq<byte>, index: uint64, last: bool)
    requires r.Ok() && (last ==> index + |data| < 0x1_0000_0000_0000_0000)
    ensures var r' := r.Push(data, index, last);
            && (r'.eof <==> r.eof || (last && index + |data| <= r.Limit()))
            && (r'.output.ended <==> r.output.ended || (r'.eof && r'.pending == map[]))
  {
  }

  /** A push keeps the invariant of the end if and only if its end announcement, if there is one, can be trusted. */
  lemma PushEndsExactly(r: Reassembler, data: seq<byte>, index: uint64, last: bool, s: seq<byte>)
    requires r.Ok() && Agrees(r, s) && EndExact(r, s) && Excerpt(data, index, s)
    requires last ==> index + |data| == |s| < 0x1_0000_0000_0000_0000
    ensures var r' := r.Push(data, index, last);
            EndExact(r', s) && (last ==> r'.eof) <==> (last ==> EndAnnouncementOk(r, data, index))
  {
    hide Reassembler.Push;
    var r' := r.Push(data, index, last);
    PushAgrees(r, data, index, last, s);
    EndFlags(r, data, index, last);
    NothingPendingAtEnd(r, s);
    NothingPendingAtEnd(r', s);
    if s != [] {
      LastByteKnown(r, data, index, last, s);
    }
  }

  // ----- the end of the stream, over everything that can still happen -----

  lemma LastPending(r: Reassembler, s: seq<byte>) returns (top: nat)
    requires r.Ok() && Agrees(r, s) && r.pending != map[]
    ensures top in r.pending && forall p <- r.pending :: p <= top
  {
    var known :| known in r.pending;
    top := |s|;
    while top !in r.pending
      invariant known <= top && forall p <- r.pending :: p <= top
      decreases top
    {
      top := top - 1;
    }
  }

  /** If the end was announced but the last byte is not known, one more piece of the stream (or none) ends it too
      soon. */
  lemma EndsTooSoon(r: Reassembler, s: seq<byte>) returns (piece: seq<byte>)
    requires r.Ok() && Agrees(r, s) && r.eof && s != [] && At(r, |s| - 1) == None && |s| < 0x1_0000_0000_0000_0000
    ensures |r.output.history| < |s| && Excerpt(piece, |r.output.history|, s)
    ensures var r' := r.Push(piece, |r.output.history|, false); r'.output.ended && |r'.output.history| < |s|
  {
    hide Reassembler.Push;
    var h := |r.output.history|;
    piece := [];
    if r.pending != map[] {
      var top := LastPending(r, s);
      piece := s[h..top + 1];
    }
    var r' := r.Push(piece, h, false);
    EndFlags(r, piece, h, false);
    PieceIsTaken(r, piece, s);
  }

  /** A piece that reaches from the output to the last pending byte empties the store. */
  lemma PieceIsTaken(r: Reassembler, piece: seq<byte>, s: seq<byte>)
    requires r.Ok() && Agrees(r, s) && |r.output.history| + |piece| <= r.Limit()
             && |r.output.history| < 0x1_0000_0000_0000_0000
    requires forall p <- r.pending :: p < |r.output.history| + |piece|
    ensures var r' := r.Push(piece, |r.output.history|, false);
            r'.pending == map[] && |r'.output.history| == |r.output.history| + |piece|
  {
    hide Reassembler.Push;
    var h := |r.output.history|;
    var r' := r.Push(piece, h, false);
    forall p: nat
      ensures At(r', p).Some? <==> p < h + |piece|
    {
      PushIsLatestWrite(r, piece, h, false, p);
    }
    PushIsLatestWrite(r, piece, h, false, |r'.output.history|);
    assert At(r', |r'.output.history|) == None && At(r', h + |piece|) == None;
    assert forall p <- r'.pending :: At(r', p).Some?;
  }

  /** What can follow a push: more pieces of the stream, in any order, and reads. */
  datatype Use = Piece(data: seq<byte>, index: uint64) | Take(len: nat)

  function After(r: Reassembler, us: seq<Use>): (r': Reassembler)
    requires r.Ok()
    ensures r'.Ok()
    decreases |us|
  {
    if us == [] then r else
      var before := After(r, us[..|us| - 1]);
      match us[|us| - 1]
      case Piece(data, index) => before.Push(data, index, false)
      case Take(len) => before.Pop(len)
  }

  ghost predicate TruePieces(us: seq<Use>, s: seq<byte>)
  {
    forall u <- us :: u.Piece? ==> Excerpt(u.data, u.index, s)
  }

  lemma {:induction false} UsesKeepEnd(r: Reassembler, us: seq<Use>, s: seq<byte>)
    requires r.Ok() && Agrees(r, s) && EndExact(r, s) && r.eof && TruePieces(us, s)
    ensures var r' := After(r, us); Agrees(r', s) && EndExact(r', s) && r'.eof
    decreases |us|
  {
    hide Reassembler.Push, Excerpt;
    if us != [] {
      var before, u := After(r, us[..|us| - 1]), us[|us| - 1];
      UsesKeepEnd(r, us[..|us| - 1], s);
      assert u in us;
      if u.Piece? {
        PushAgrees(before, u.data, u.index, false, s);
        PushEndsExactly(before, u.data, u.index, false, s);
        EndFlags(before, u.data, u.index, false);
      }
    }
  }

  /** From here on the stream ends exactly when all of `s` is out, whatever pieces of it come and whatever is read. */
  ghost predicate EndsExactly(r: Reassembler, s: seq<byte>)
    requires r.Ok()
  {
    forall us | TruePieces(us, s) :: After(r, us).output.ended <==> |After(r, us).output.history| == |s|
  }

  /** An end announcement takes effect, and the stream ends exactly at its end in everything that can follow, if and
      only if the announcement can be trusted. */
  lemma AnnouncementIsExact(r: Reassembler, data: seq<byte>, index: uint64, s: seq<byte>)
    requires r.Ok() && Agrees(r, s) && EndExact(r, s) && Excerpt(data, index, s)
    requires index + |data| == |s| < 0x1_0000_0000_0000_0000
    ensures var r' := r.Push(data, index, true);
            r'.eof && EndsExactly(r', s) <==> EndAnnouncementOk(r, data, index)
  {
    hide Reassembler.Push, After, EndExact, Excerpt;
    var r' := r.Push(data, index, true);
    PushAgrees(r, data, index, true, s);
    PushEndsExactly(r, data, index, true, s);
    if EndAnnouncementOk(r, data, index) {
      forall us | TruePieces(us, s)
        ensures After(r', us).output.ended <==> |After(r', us).output.history| == |s|
      {
        UsesKeepEnd(r', us, s);
        EndExactMeans(After(r', us), s);
      }
    } else if r'.eof {
      DistrustLeavesGap(r, data, index, s);
      var piece := EndsTooSoon(r', s);
      var us := [Piece(piece, |r'.output.history|)];
      AfterOne(r', us);
      assert TruePieces(us, s);
    }
  }

  lemma AfterOne(r: Reassembler, us: seq<Use>)
    requires r.Ok() && |us| == 1 && us[0].Piece?
    ensures After(r, us) == r.Push(us[0].data, us[0].index, false)
  {
    hide Reassembler.Push;
    assert us[..0] == [];
  }

  lemma EndExactMeans(r: Reassembler, s: seq<byte>)
    requires EndExact(r, s) && r.eof
    ensures r.output.ended <==> |r.output.history| == |s|
  {
  }

  /** An announcement that takes effect and cannot be trusted leaves the last byte unknown. */
  lemma DistrustLeavesGap(r: Reassembler, data: seq<byte>, index: uint64, s: seq<byte>)
    requires r.Ok() && Agrees(r, s) && EndExact(r, s) && Excerpt(data, index, s)
    requires index + |data| == |s| < 0x1_0000_0000_0000_0000 && !EndAnnouncementOk(r, data, index)
    requires r.Push(data, index, true).eof
    ensures s != [] && At(r.Push(data, index, true), |s| - 1) == None
  {
    hide Reassembler.Push;
    EndFlags(r, data, index, true);
    NothingPendingAtEnd(r, s);
    LastByteKnown(r, data, index, true, s);
  }

  /** Why the hypothesis is needed: an empty FIN that overtakes five bytes ends the stream at once. */
  lemma EmptyFinEndsStreamEarly()
    ensures var empty := Reassembler(Stream(10, [], 0, false, false), map[], false);
            var r := empty.Push([], 5, true);
            empty.Ok() && !EndAnnouncementOk(empty, [], 5) && r.output.ended && r.output.history == []
  {
  }
}
