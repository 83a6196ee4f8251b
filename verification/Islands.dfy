/** Two-hop branches: a short branch reaches a padding island in the text, the island reaches anywhere. */
module Islands {
  import opened Bytes
  import opened Branches
  import opened PatternScan

  // An undefined instruction and 14 no-operations.
  const PAD1: seq<byte> := [0x0f, 0x0b, 0x90, 0x90, 0x90, 0x90, 0x90, 0x90, 0x90, 0x90, 0x90, 0x90, 0x90, 0x90, 0x90, 0x90]
  // A return and a 15-byte no-operation.
  const PAD2: seq<byte> := [0xc3, 0x66, 0x66, 0x66, 0x66, 0x66, 0x66, 0x2e, 0x0f, 0x1f, 0x84, 0x00, 0x00, 0x00, 0x00, 0x00]

  // The signatures of the paddings: their bytes in lower-case hexadecimal, one space apart.
  const UD2_PADDING: string := Render(Literal(PAD1))
  const NOP_PADDING: string := Render(Literal(PAD2))

  // The island that a text has: the first padding of the first kind, else of the second.
  ghost function Island(mem: seq<byte>, textbase: nat, textsz: nat): nat {
    var first := Found(mem, textbase, textsz, PAD1, 2);
    if first != 0 then first else Found(mem, textbase, textsz, PAD2, 1)
  }

  // ---------------------------------------------------------------- which island is found

  // A padding stands at the i-th address of a text, and at none before it.
  ghost predicate FirstPadding(mem: seq<byte>, textbase: nat, textsz: nat, pad: seq<byte>, i: nat) {
    && i < textsz && MatchesAt(mem, textbase + i, pad)
    && forall a :: textbase <= a < textbase + i ==> !MatchesAt(mem, a, pad)
  }

  ghost predicate NoPadding(mem: seq<byte>, textbase: nat, textsz: nat, pad: seq<byte>) {
    forall a :: textbase <= a < textbase + textsz ==> !MatchesAt(mem, a, pad)
  }

  // A text that is there holds padding of either kind.
  ghost predicate HasPadding(mem: seq<byte>, textbase: nat, textsz: nat) {
    textbase != 0 && !(NoPadding(mem, textbase, textsz, PAD1) && NoPadding(mem, textbase, textsz, PAD2))
  }

  lemma PaddingFound(mem: seq<byte>, textbase: nat, textsz: nat, pad: seq<byte>, offset: nat) returns (i: nat)
    requires 0 < textbase && textbase + textsz + offset < TWO64 && |pad| == 16
    ensures Found(mem, textbase, textsz, pad, offset) == 0 <==> NoPadding(mem, textbase, textsz, pad)
    ensures !NoPadding(mem, textbase, textsz, pad) ==>
              FirstPadding(mem, textbase, textsz, pad, i) && Found(mem, textbase, textsz, pad, offset) == textbase + i + offset
  {
    ScanFindsLeast(mem, textbase, textsz, pad, offset);
    var r := Found(mem, textbase, textsz, pad, offset);
    i := if r == 0 then 0 else r - offset - textbase;
  }

  // An island is found exactly if the text holds padding: 2 bytes into the first padding of the first kind or, if
  // there is none, 1 byte into the first of the second kind.
  lemma IslandIsFound(mem: seq<byte>, textbase: nat, textsz: nat)
    requires textbase + textsz + 16 < TWO64
    ensures Island(mem, textbase, textsz) != 0 <==> HasPadding(mem, textbase, textsz)
    ensures forall i :: textbase != 0 && FirstPadding(mem, textbase, textsz, PAD1, i) ==>
                          Island(mem, textbase, textsz) == textbase + i + 2
    ensures forall i :: textbase != 0 && NoPadding(mem, textbase, textsz, PAD1) &&
                        FirstPadding(mem, textbase, textsz, PAD2, i) ==>
                          Island(mem, textbase, textsz) == textbase + i + 1
  {
    if textbase != 0 {
      var i := PaddingFound(mem, textbase, textsz, PAD1, 2);
      var j := PaddingFound(mem, textbase, textsz, PAD2, 1);
      forall k | FirstPadding(mem, textbase, textsz, PAD1, k) ensures k == i && !NoPadding(mem, textbase, textsz, PAD1) {
        OneFirstPadding(mem, textbase, textsz, PAD1, i, k);
      }
      forall k | FirstPadding(mem, textbase, textsz, PAD2, k) ensures k == j && !NoPadding(mem, textbase, textsz, PAD2) {
        OneFirstPadding(mem, textbase, textsz, PAD2, j, k);
      }
    }
  }

  lemma OneFirstPadding(mem: seq<byte>, textbase: nat, textsz: nat, pad: seq<byte>, i: nat, k: nat)
    requires FirstPadding(mem, textbase, textsz, pad, k)
    requires !NoPadding(mem, textbase, textsz, pad) ==> FirstPadding(mem, textbase, textsz, pad, i)
    ensures k == i && !NoPadding(mem, textbase, textsz, pad)
  {
    assert MatchesAt(mem, textbase + k, pad);
  }

  // ---------------------------------------------------------------- islands and paddings

  // n bytes at a and m bytes at b do not overlap.
  predicate Apart(a: nat, n: nat, b: nat, m: nat) {
    a + n <= b || b + m <= a
  }

  // The bytes of a target from the i-th on start a padding.
  predicate StartsPadding(dst: nat, i: nat, pad: seq<byte>)
    requires i <= 8 && |pad| >= 8
  {
    ToLe(dst, QWORD)[i..] == pad[..8 - i]
  }

  // A padding starts among the first n bytes of a target.
  predicate HoldsPadding(dst: nat, n: nat, pad: seq<byte>)
    requires n <= 8 && |pad| >= 8
  {
    exists i :: 0 <= i < n && StartsPadding(dst, i, pad)
  }

  // No padding starts inside the target so that the island behind its first bytes would reach into the target.
  predicate SafeTarget(dst: nat) {
    dst < TWO64 && !HoldsPadding(dst, 6, PAD1) && !HoldsPadding(dst, 7, PAD2)
  }

  // A jump to a 48-bit address holds two zero bytes at its end.
  lemma {:induction false} LowTargetEndsInZeros(v: nat, n: nat)
    requires v < Pow256(n)
    ensures ToLe(v, n + 2)[n] == ToLe(v, n + 2)[n + 1] == 0
    decreases n
  {
    if n == 0 {
      assert ToLe(0, 2) == [0, 0];
    } else {
      LowTargetEndsInZeros(v / 0x100, n - 1);
      assert ToLe(v, n + 2) == [v % 0x100] + ToLe(v / 0x100, n + 1);
    }
  }

  // So 48-bit targets are safe.
  lemma LowTargetIsSafe(dst: nat)
    requires dst < 0x1_0000_0000_0000
    ensures SafeTarget(dst)
  {
    assert Pow256(6) == 0x1_0000_0000_0000;
    LowTargetEndsInZeros(dst, 6);
    forall i | 0 <= i < 6 ensures !StartsPadding(dst, i, PAD1) {
      assert ToLe(dst, QWORD)[i..][7 - i] == 0 && PAD1[..8 - i][7 - i] == PAD1[7 - i];
    }
    forall i | 0 <= i < 7 ensures !StartsPadding(dst, i, PAD2) {
      assert ToLe(dst, QWORD)[i..][7 - i] == 0 && PAD2[..8 - i][7 - i] == PAD2[7 - i];
    }
  }

  // The bytes of a written island.
  lemma IslandBytes(mem: seq<byte>, a: nat, dst: nat)
    requires Jump64At(mem, a, dst)
    ensures At(mem, a) == 0xff && At(mem, a + 1) == 0x25
    ensures forall k :: a + 2 <= k < a + 6 ==> At(mem, k) == 0
    ensures forall k :: a + 6 <= k < a + 14 ==> At(mem, k) == ToLe(dst, QWORD)[k - a - 6]
  {
    var s, s' := Slice(mem, a, 6), Slice(mem, a + 6, 8);
    assert s[0] == At(mem, a + 0) && s[1] == At(mem, a + 1);
    forall k | a + 2 <= k < a + 6 ensures At(mem, k) == 0 {
      assert s[k - a] == At(mem, a + (k - a));
    }
    forall k | a + 6 <= k < a + 14 ensures At(mem, k) == ToLe(dst, QWORD)[k - a - 6] {
      assert s'[k - a - 6] == At(mem, a + 6 + (k - a - 6));
    }
  }

  // Paddings hold no wildcard, and no byte that starts an island.
  lemma PaddingBytes(mem: seq<byte>, b: nat, pad: seq<byte>)
    requires pad in {PAD1, PAD2} && MatchesAt(mem, b, pad)
    ensures forall k :: b <= k < b + 16 ==> At(mem, k) == pad[k - b] != 0xff
    ensures At(mem, b) !in {0, 0x25}
  {
    forall k | b <= k < b + 16 ensures At(mem, k) == pad[k - b] != 0xff {
      assert AgreesAt(mem, b, k - b, pad);
    }
    assert At(mem, b) == pad[0];
  }

  // A padding that reaches into a written island does not reach its branch.
  lemma PaddingIsPastBranch(mem: seq<byte>, a: nat, dst: nat, b: nat, pad: seq<byte>)
    requires pad in {PAD1, PAD2} && Jump64At(mem, a, dst) && MatchesAt(mem, b, pad) && a < b + 16
    ensures a + 6 <= b
  {
    IslandBytes(mem, a, dst);
    PaddingBytes(mem, b, pad);
  }

  lemma EndIsStart(t: seq<byte>, i: nat, pad: seq<byte>)
    requires |t| == 8 && |pad| == 16 && i <= 8 && forall j :: 0 <= j < 8 - i ==> t[i + j] == pad[j]
    ensures t[i..] == pad[..8 - i]
  {
  }

  // The bytes of a pattern that starts on the target of a written island.
  lemma PatternInTarget(mem: seq<byte>, a: nat, dst: nat, b: nat, pad: seq<byte>)
    requires Jump64At(mem, a, dst) && |pad| == 16 && a + 6 <= b < a + 14
    requires forall k :: b <= k < b + 16 ==> At(mem, k) == pad[k - b]
    ensures StartsPadding(dst, b - a - 6, pad)
  {
    IslandBytes(mem, a, dst);
    var i := b - a - 6;
    forall j | 0 <= j < 8 - i ensures ToLe(dst, QWORD)[i + j] == pad[j] {
      assert At(mem, b + j) == pad[j];
    }
    EndIsStart(ToLe(dst, QWORD), i, pad);
  }

  // It starts inside the target.
  lemma PaddingInTarget(mem: seq<byte>, a: nat, dst: nat, b: nat, pad: seq<byte>)
    requires pad in {PAD1, PAD2} && Jump64At(mem, a, dst) && MatchesAt(mem, b, pad)
    requires b < a + 14 && a < b + 16
    ensures a + 6 <= b && StartsPadding(dst, b - a - 6, pad)
  {
    PaddingIsPastBranch(mem, a, dst, b, pad);
    PaddingBytes(mem, b, pad);
    PatternInTarget(mem, a, dst, b, pad);
  }

  // Padding of the first kind that still matches does not overlap a written island.
  lemma Padding1SparesIslands(mem: seq<byte>, a: nat, dst: nat, b: nat)
    requires Jump64At(mem, a, dst) && SafeTarget(dst) && MatchesAt(mem, b, PAD1)
    ensures Apart(a, 14, b + 2, 14)
  {
    if !Apart(a, 14, b + 2, 14) {
      PaddingInTarget(mem, a, dst, b, PAD1);
    }
  }

  // Nor does padding of the second kind.
  lemma Padding2SparesIslands(mem: seq<byte>, a: nat, dst: nat, b: nat)
    requires Jump64At(mem, a, dst) && SafeTarget(dst) && MatchesAt(mem, b, PAD2)
    ensures Apart(a, 14, b + 1, 14)
  {
    if !Apart(a, 14, b + 1, 14) {
      PaddingInTarget(mem, a, dst, b, PAD2);
    }
  }

  // An island whose target is not safe, and the rest of the padding behind it.
  function Trap(dst: nat, i: nat, pad: seq<byte>): (mem: seq<byte>)
    requires i <= 8 && |pad| == 16
  {
    [0] + JMP_STUB + ToLe(dst, QWORD) + pad[8 - i..]
  }

  lemma TrapSprings(dst: nat, i: nat, pad: seq<byte>)
    requires pad in {PAD1, PAD2} && i <= 8 && StartsPadding(dst, i, pad)
    ensures Jump64At(Trap(dst, i, pad), 1, dst) && MatchesAt(Trap(dst, i, pad), 7 + i, pad)
  {
    var mem, target, b := Trap(dst, i, pad), ToLe(dst, QWORD), 7 + i;
    forall k | 0 <= k < 6 ensures At(mem, 1 + k) == JMP_STUB[k] {
    }
    forall k | 0 <= k < 8 ensures At(mem, 7 + k) == target[k] {
    }
    assert Slice(mem, 1, 6) == JMP_STUB && Slice(mem, 7, 8) == target;
    forall j | 0 <= j < 16 ensures AgreesAt(mem, b, j, pad) {
      if j < 8 - i {
        assert mem[7 + i + j] == target[i + j] == target[i..][j] == pad[..8 - i][j];
      } else {
        assert mem[7 + i + j] == pad[8 - i..][j - (8 - i)];
      }
    }
  }

  // In this memory a padding still matches whose island overlaps the written one.
  ghost predicate Springs(mem: seq<byte>, a: nat, dst: nat, b: nat) {
    Jump64At(mem, a, dst) &&
    ((MatchesAt(mem, b, PAD1) && !Apart(a, 14, b + 2, 14)) || (MatchesAt(mem, b, PAD2) && !Apart(a, 14, b + 1, 14)))
  }

  // A target is safe exactly when no memory lets a matching padding overlap its island.
  lemma SafeTargetIsExact(dst: nat)
    requires dst < TWO64
    ensures SafeTarget(dst) <==> forall mem, a, b :: !Springs(mem, a, dst, b)
  {
    if SafeTarget(dst) {
      forall mem, a, b ensures !Springs(mem, a, dst, b) {
        if Jump64At(mem, a, dst) && MatchesAt(mem, b, PAD1) {
          Padding1SparesIslands(mem, a, dst, b);
        }
        if Jump64At(mem, a, dst) && MatchesAt(mem, b, PAD2) {
          Padding2SparesIslands(mem, a, dst, b);
        }
      }
    } else if HoldsPadding(dst, 6, PAD1) {
      var i :| 0 <= i < 6 && StartsPadding(dst, i, PAD1);
      TrapSprings(dst, i, PAD1);
      assert Springs(Trap(dst, i, PAD1), 1, dst, 7 + i);
    } else {
      var i :| 0 <= i < 7 && StartsPadding(dst, i, PAD2);
      TrapSprings(dst, i, PAD2);
      assert Springs(Trap(dst, i, PAD2), 1, dst, 7 + i);
    }
  }

  // A new island never overlaps a written one.
  lemma NewIslandIsApart(mem: seq<byte>, textbase: nat, textsz: nat, a: nat, dst: nat)
    requires textbase + textsz + 16 < TWO64 && Island(mem, textbase, textsz) != 0
    requires Jump64At(mem, a, dst) && SafeTarget(dst)
    ensures Apart(a, 14, Island(mem, textbase, textsz), 14)
  {
    if Found(mem, textbase, textsz, PAD1, 2) != 0 {
      var i := FirstMatch(mem, textbase, textsz, PAD1, 0);
      Padding1SparesIslands(mem, a, dst, textbase + i);
    } else {
      var i := FirstMatch(mem, textbase, textsz, PAD2, 0);
      Padding2SparesIslands(mem, a, dst, textbase + i);
    }
  }

  // ---------------------------------------------------------------- runs

  // A request to send the code at src, len bytes of it, to dst through an island of a text.
  datatype Request = Request(textbase: nat, textsz: nat, src: nat, dst: nat, len: nat, call: bool)

  // A request whose text, as far as a scan reads it, and source are in memory of the given size.
  predicate Mapped(size: nat, r: Request) {
    r.textbase + r.textsz + 16 <= size < TWO64 && r.src + r.len <= size
  }

  // A request that can be linked: a source that holds a branch, and a safe target.
  predicate Admissible(size: nat, r: Request) {
    Mapped(size, r) && 0 < r.src && JMP_CALL_BYTES <= r.len && SafeTarget(r.dst)
  }

  ghost predicate AllAdmissible(size: nat, rs: seq<Request>) {
    forall i :: 0 <= i < |rs| ==> Admissible(size, rs[i])
  }

  lemma IslandInText(mem: seq<byte>, textbase: nat, textsz: nat)
    requires textbase + textsz + 16 < TWO64 && Island(mem, textbase, textsz) != 0
    ensures textbase < Island(mem, textbase, textsz) <= textbase + textsz + 1
  {
    if Found(mem, textbase, textsz, PAD1, 2) != 0 {
      var i := FirstMatch(mem, textbase, textsz, PAD1, 0);
    } else {
      var i := FirstMatch(mem, textbase, textsz, PAD2, 0);
    }
  }

  // The source branches to the island, the island to the target.
  function TwoHops(mem: seq<byte>, r: Request, island: nat): (mem': seq<byte>)
    requires r.src + r.len <= |mem| && island + 14 <= |mem|
    ensures |mem'| == |mem|
  {
    WithJump64(WithJump32(mem, r.src, island, r.len, r.call), island, r.dst)
  }

  // Memory after a request; without an island it stays as it is.
  ghost function Redirect(mem: seq<byte>, r: Request): (mem': seq<byte>)
    requires Mapped(|mem|, r)
    ensures |mem'| == |mem|
  {
    var island := Island(mem, r.textbase, r.textsz);
    if island == 0 then mem
    else
      IslandInText(mem, r.textbase, r.textsz);
      TwoHops(mem, r, island)
  }

  // A request that was served, with its island.
  datatype Link = Link(request: Request, island: nat)

  ghost function RunRequests(mem: seq<byte>, rs: seq<Request>): (r: (seq<byte>, seq<Link>))
    requires AllAdmissible(|mem|, rs)
    ensures |r.0| == |mem|
  {
    if rs == [] then (mem, [])
    else
      var (mem', links) := RunRequests(mem, rs[..|rs| - 1]);
      var r := rs[|rs| - 1];
      var island := Island(mem', r.textbase, r.textsz);
      (Redirect(mem', r), if island == 0 then links else links + [Link(r, island)])
  }

  // The source holds its branch and the island its jump.
  ghost predicate Linked(mem: seq<byte>, l: Link) {
    && At(mem, l.request.src) == (if l.request.call then 0xe8 else 0xe9)
    && Slice(mem, l.request.src + 1, 4) == ToLe(Wrap32(l.island - l.request.src - JMP_CALL_BYTES), DWORD)
    && Jump64At(mem, l.island, l.request.dst)
  }

  // No source overlaps an island or another source.
  ghost predicate SourcesApart(links: seq<Link>) {
    && (forall i, j :: 0 <= i < |links| && 0 <= j < |links| ==>
          Apart(links[i].request.src, links[i].request.len, links[j].island, 14))
    && (forall i, j :: 0 <= i < j < |links| ==>
          Apart(links[i].request.src, links[i].request.len, links[j].request.src, links[j].request.len))
  }

  ghost predicate AllLinked(mem: seq<byte>, links: seq<Link>) {
    && (forall i :: 0 <= i < |links| ==> Linked(mem, links[i]))
    && (forall i :: 0 <= i < |links| ==>
          SafeTarget(links[i].request.dst) && JMP_CALL_BYTES <= links[i].request.len)
    && (forall i, j :: 0 <= i < j < |links| ==> Apart(links[i].island, 14, links[j].island, 14))
  }

  lemma SlicesStay(m: seq<byte>, m': seq<byte>, a: nat, n: nat)
    requires forall k: nat :: a <= k < a + n ==> At(m', k) == At(m, k)
    ensures Slice(m', a, n) == Slice(m, a, n)
  {
    var s, s' := Slice(m, a, n), Slice(m', a, n);
    forall i | 0 <= i < n ensures s'[i] == s[i] {
      assert At(m', a + i) == At(m, a + i);
    }
  }

  // A link survives writes elsewhere.
  lemma LinkStays(m: seq<byte>, m': seq<byte>, l: Link)
    requires Linked(m, l) && JMP_CALL_BYTES <= l.request.len
    requires forall k: nat :: l.request.src <= k < l.request.src + l.request.len ==> At(m', k) == At(m, k)
    requires forall k: nat :: l.island <= k < l.island + 14 ==> At(m', k) == At(m, k)
    ensures Linked(m', l)
  {
    SlicesStay(m, m', l.request.src + 1, 4);
    SlicesStay(m, m', l.island, 6);
    SlicesStay(m, m', l.island + 6, 8);
  }

  lemma TwoHopsFrame(mem: seq<byte>, r: Request, island: nat)
    requires Admissible(|mem|, r) && 0 < island && island + 14 <= |mem|
    ensures forall k: nat :: (k < r.src || r.src + r.len <= k) && (k < island || island + 14 <= k)
              ==> At(TwoHops(mem, r, island), k) == At(mem, k)
  {
    WithJump32Holds(mem, r.src, island, r.len, r.call);
    WithJump64IsJump(WithJump32(mem, r.src, island, r.len, r.call), island, r.dst);
  }

  lemma JumpKeepsBranch(mem: seq<byte>, src: nat, n: nat, island: nat, dst: nat)
    requires island + 14 <= |mem| && Apart(src, n, island, 14) && n >= 5
    ensures At(WithJump64(mem, island, dst), src) == At(mem, src)
    ensures Slice(WithJump64(mem, island, dst), src + 1, 4) == Slice(mem, src + 1, 4)
    ensures Jump64At(WithJump64(mem, island, dst), island, dst)
  {
    WithJump64IsJump(mem, island, dst);
    SlicesStay(mem, WithJump64(mem, island, dst), src + 1, 4);
  }

  lemma JumpCompletesLink(mem: seq<byte>, r: Request, island: nat)
    requires island + 14 <= |mem| && Apart(r.src, r.len, island, 14) && r.len >= 5
    requires At(mem, r.src) == (if r.call then 0xe8 else 0xe9)
    requires Slice(mem, r.src + 1, 4) == ToLe(Wrap32(island - r.src - JMP_CALL_BYTES), DWORD)
    ensures Linked(WithJump64(mem, island, r.dst), Link(r, island))
  {
    JumpKeepsBranch(mem, r.src, r.len, island, r.dst);
  }

  lemma TwoHopsLink(mem: seq<byte>, r: Request, island: nat)
    requires Admissible(|mem|, r) && 0 < island && island + 14 <= |mem| && Apart(r.src, r.len, island, 14)
    ensures Linked(TwoHops(mem, r, island), Link(r, island))
  {
    WithJump32Holds(mem, r.src, island, r.len, r.call);
    JumpCompletesLink(WithJump32(mem, r.src, island, r.len, r.call), r, island);
  }

  lemma OldLinkStays(mem: seq<byte>, links: seq<Link>, r: Request, i: nat)
    requires Admissible(|mem|, r) && Island(mem, r.textbase, r.textsz) != 0
    requires AllLinked(mem, links) && i < |links|
    requires SourcesApart(links + [Link(r, Island(mem, r.textbase, r.textsz))])
    ensures Linked(Redirect(mem, r), links[i])
    ensures Apart(links[i].island, 14, Island(mem, r.textbase, r.textsz), 14)
  {
    var island := Island(mem, r.textbase, r.textsz);
    var all := links + [Link(r, island)];
    assert all[i] == links[i] && all[|links|] == Link(r, island);
    NewIslandIsApart(mem, r.textbase, r.textsz, links[i].island, links[i].request.dst);
    IslandInText(mem, r.textbase, r.textsz);
    TwoHopsFrame(mem, r, island);
    LinkStays(mem, Redirect(mem, r), links[i]);
  }

  lemma RedirectKeepsLinked(mem: seq<byte>, links: seq<Link>, r: Request)
    requires Admissible(|mem|, r) && Island(mem, r.textbase, r.textsz) != 0 && AllLinked(mem, links)
    requires SourcesApart(links + [Link(r, Island(mem, r.textbase, r.textsz))])
    ensures AllLinked(Redirect(mem, r), links + [Link(r, Island(mem, r.textbase, r.textsz))])
  {
    var island := Island(mem, r.textbase, r.textsz);
    var all := links + [Link(r, island)];
    assert all[|links|] == Link(r, island);
    IslandInText(mem, r.textbase, r.textsz);
    TwoHopsLink(mem, r, island);
    forall i | 0 <= i < |links|
      ensures Linked(Redirect(mem, r), all[i]) && Apart(all[i].island, 14, island, 14)
    {
      OldLinkStays(mem, links, r, i);
    }
  }

  lemma SourcesApartBefore(links: seq<Link>, l: Link)
    requires SourcesApart(links + [l])
    ensures SourcesApart(links)
  {
    var all := links + [l];
    assert forall i :: 0 <= i < |links| ==> all[i] == links[i];
  }

  // After any run whose sources overlap neither islands nor each other, every served source
  // branches to its own island, every island jumps to its own target, and islands never overlap.
  lemma {:induction false} IslandsInvariant(mem: seq<byte>, rs: seq<Request>)
    requires AllAdmissible(|mem|, rs) && SourcesApart(RunRequests(mem, rs).1)
    ensures AllLinked(RunRequests(mem, rs).0, RunRequests(mem, rs).1)
    decreases |rs|
  {
    if rs != [] {
      var (mem', links) := RunRequests(mem, rs[..|rs| - 1]);
      var r := rs[|rs| - 1];
      var island := Island(mem', r.textbase, r.textsz);
      if island == 0 {
        IslandsInvariant(mem, rs[..|rs| - 1]);
      } else {
        SourcesApartBefore(links, Link(r, island));
        IslandsInvariant(mem, rs[..|rs| - 1]);
        RedirectKeepsLinked(mem', links, r);
      }
    }
  }

  // What a link means to whoever runs into its source: two hops to the target.
  lemma LinkGoesToTarget(mem: seq<byte>, l: Link)
    requires Linked(mem, l) && 0 < l.request.src && l.request.dst < TWO64 && l.island + 6 < TWO64
    ensures ReadLEA32(mem, l.request.src, 0, 1, JMP_CALL_BYTES) == l.island <==> InReach(l.request.src, l.island)
    ensures IsJumpThroughMemory(mem, l.island) && JumpTarget(mem, l.island) == l.request.dst
  {
    BranchReadsBack(mem, l.request.src, l.island);
    Jump64Goes(mem, l.island, l.request.dst);
  }

  lemma BranchReadsBack(mem: seq<byte>, src: nat, dst: nat)
    requires 0 < src && dst < TWO64 && Slice(mem, src + 1, 4) == ToLe(Wrap32(dst - src - JMP_CALL_BYTES), DWORD)
    ensures ReadLEA32(mem, src, 0, 1, JMP_CALL_BYTES) == dst <==> InReach(src, dst)
  {
    ReadsDisplacement(mem, src, Wrap32(dst - src - JMP_CALL_BYTES));
    DisplacementLeadsBack(src, dst);
  }
}
