/** The form as a lens over a document's blocks: what the components leave
    behind together, for components that own different blocks and write only
    blocks they own. */
module FormLens {
  import opened DocForm

  // ----- all components at once -----

  /** What one component does to its target; `done` once its replacement has
      been placed. */
  datatype Edit = Edit(matches: Matcher, repl: seq<Block>, done: bool)

  /** The edit that owns the block, or their number if none does. */
  function Owner(edits: seq<Edit>, b: Block): (i: nat)
    ensures i <= |edits|
    ensures i < |edits| ==> edits[i].matches(b)
    ensures forall k | 0 <= k < i :: !edits[k].matches(b)
  {
    if edits == [] then 0 else if edits[0].matches(b) then 0 else 1 + Owner(edits[1..], b)
  }

  function Due(e: Edit): seq<Block> {
    if e.done then [] else e.repl
  }

  function Mark(edits: seq<Edit>, i: nat): seq<Edit>
    requires i < |edits|
  {
    edits[i := edits[i].(done := true)]
  }

  /** The replacements that found no match, in the components' order. */
  function Unplaced(edits: seq<Edit>): seq<Block> {
    if edits == [] then [] else Due(edits[0]) + Unplaced(edits[1..])
  }

  /** The reference: one walk over the blocks, in which a block nobody owns is
      kept, the first block of each component is where its replacement goes,
      its other blocks vanish, and what is left to place goes last. */
  function Render(bs: seq<Block>, edits: seq<Edit>): seq<Block>
    decreases |bs|
  {
    if bs == [] then Unplaced(edits)
    else
      var i := Owner(edits, bs[0]);
      if i == |edits| then [bs[0]] + Render(bs[1..], edits)
      else Due(edits[i]) + Render(bs[1..], Mark(edits, i))
  }

  predicate NoneOwns(bs: seq<Block>, edits: seq<Edit>) {
    forall b | b in bs :: Owner(edits, b) == |edits|
  }

  lemma {:induction false} UnownedPass(bs: seq<Block>, rest: seq<Block>, edits: seq<Edit>)
    requires NoneOwns(bs, edits)
    ensures Render(bs + rest, edits) == bs + Render(rest, edits)
  {
    if bs == [] {
      assert bs + rest == rest;
    } else {
      assert (bs + rest)[1..] == bs[1..] + rest;
      UnownedPass(bs[1..], rest, edits);
    }
  }

  /** One edit alone is a replacement. */
  lemma {:induction false} RenderOne(bs: seq<Block>, e: Edit)
    ensures Render(bs, [e]) == if e.done then DropBlocks(bs, e.matches) else Replaced(bs, e.matches, e.repl)
  {
    if bs == [] {
      assert Unplaced([e]) == Due(e);
    } else {
      assert Mark([e], 0) == [e.(done := true)];
      assert Owner([e], bs[0]) == if e.matches(bs[0]) then 0 else 1;
      RenderOne(bs[1..], e);
      RenderOne(bs[1..], e.(done := true));
    }
  }

  ghost predicate Apart(e: Edit, edits: seq<Edit>) {
    forall k | 0 <= k < |edits| :: Disjoint(e.matches, edits[k].matches)
  }

  lemma NoneOwnsApart(e: Edit, es: seq<Edit>)
    requires Apart(e, es) && AllMatch(e.repl, e.matches)
    ensures NoneOwns(e.repl, es) && NoneOwns(Due(e), es)
    ensures forall b | e.matches(b) :: Owner(es, b) == |es|
  {
  }

  /** Doing one component first and the rest after is doing them at once. */
  lemma {:induction false} Compose(bs: seq<Block>, e: Edit, es: seq<Edit>)
    requires AllMatch(e.repl, e.matches) && Apart(e, es)
    ensures Render(Render(bs, [e]), es) == Render(bs, [e] + es)
    decreases |bs|
  {
    NoneOwnsApart(e, es);
    assert ([e] + es)[1..] == es;
    if bs == [] {
      assert Unplaced([e]) == Due(e);
      assert Due(e) + [] == Due(e);
      UnownedPass(Due(e), [], es);
    } else {
      var b, rest, i := bs[0], bs[1..], Owner(es, bs[0]);
      if e.matches(b) {
        var d := e.(done := true);
        assert Mark([e], 0) == [d] && Mark([e] + es, 0) == [d] + es;
        Compose(rest, d, es);
        UnownedPass(Due(e), Render(rest, [d]), es);
      } else {
        assert Owner([e], b) == 1 && Owner([e] + es, b) == 1 + i;
        var after := Render(rest, [e]);
        assert ([b] + after)[1..] == after;
        if i == |es| {
          Compose(rest, e, es);
        } else {
          assert Mark([e] + es, 1 + i) == [e] + Mark(es, i);
          Compose(rest, e, Mark(es, i));
        }
      }
    }
  }

  // ----- the form in one walk -----

  /** Components of one target own different blocks. */
  ghost predicate Separate(cs: seq<Component>) {
    forall i, j | 0 <= i < j < |cs| && cs[i].target == cs[j].target :: Disjoint(cs[i].matches, cs[j].matches)
  }

  /** What a component writes is its own. */
  ghost predicate Tidy(cs: seq<Component>) {
    forall c, bs, values | c in cs :: AllMatch(c.apply(bs, values), c.matches)
  }

  /** What the components of a target do to it, each on the original blocks. */
  function EditsFor(cs: seq<Component>, t: Target, bs: seq<Block>, values: Values): seq<Edit> {
    if cs == [] then []
    else (if cs[0].target == t then [Edit(cs[0].matches, Replacement(cs[0], bs, values), false)] else [])
         + EditsFor(cs[1..], t, bs, values)
  }

  lemma {:induction false} EditsApart(cs: seq<Component>, t: Target, bs: seq<Block>, values: Values, e: Edit)
    requires forall c | c in cs && c.target == t :: Disjoint(e.matches, c.matches)
    ensures Apart(e, EditsFor(cs, t, bs, values))
  {
    if cs != [] {
      EditsApart(cs[1..], t, bs, values, e);
    }
  }

  /** What the others are handed does not depend on what one has written. */
  lemma {:induction false} EditsUnmoved(cs: seq<Component>, t: Target, bs: seq<Block>, values: Values, e: Edit)
    requires forall c | c in cs && c.target == t :: Disjoint(e.matches, c.matches)
    requires AllMatch(e.repl, e.matches)
    ensures EditsFor(cs, t, Replaced(bs, e.matches, e.repl), values) == EditsFor(cs, t, bs, values)
  {
    if cs != [] {
      EditsUnmoved(cs[1..], t, bs, values, e);
      if cs[0].target == t {
        OthersKeep(bs, e.matches, e.repl, cs[0].matches);
      }
    }
  }

  /** Applying the components in turn is the one-walk reference, on the blocks
      as they were and with the replacements each makes of its own. */
  lemma {:induction false} ApplyAllIsOneWalk(cs: seq<Component>, doc: Document, values: Values, t: Target)
    requires Separate(cs) && Tidy(cs) && !t.Elsewhere?
    ensures BlocksFor(AppliedAll(cs, doc, values), t)
            == Render(BlocksFor(doc, t), EditsFor(cs, t, BlocksFor(doc, t), values))
  {
    var bs := BlocksFor(doc, t);
    if cs == [] {
      RenderNone(bs);
    } else {
      var c, rest, doc1 := cs[0], cs[1..], Applied(cs[0], doc, values);
      assert Separate(rest) by {
        assert forall i | 0 <= i < |rest| :: rest[i] == cs[i + 1];
      }
      ApplyAllIsOneWalk(rest, doc1, values, t);
      if c.target == t {
        var e := Edit(c.matches, Replacement(c, bs, values), false);
        assert c in cs;
        forall d | d in rest && d.target == t ensures Disjoint(c.matches, d.matches) {
          var k :| 0 <= k < |rest| && rest[k] == d;
          assert cs[k + 1] == d;
        }
        EditsApart(rest, t, bs, values, e);
        EditsUnmoved(rest, t, bs, values, e);
        RenderOne(bs, e);
        Compose(bs, e, EditsFor(rest, t, bs, values));
      } else {
        assert BlocksFor(doc1, t) == bs;
        assert [] + EditsFor(rest, t, bs, values) == EditsFor(rest, t, bs, values);
      }
    }
  }

  lemma {:induction false} RenderNone(bs: seq<Block>)
    ensures Render(bs, []) == bs
  {
    if bs != [] {
      RenderNone(bs[1..]);
      assert bs == [bs[0]] + bs[1..];
    }
  }

  // ----- what the form promises -----

  /** The matcher selects no block that a component of the target owns. */
  ghost predicate Foreign(u: Matcher, cs: seq<Component>, t: Target) {
    forall c | c in cs && c.target == t :: Disjoint(c.matches, u)
  }

  /** Blocks that no component owns keep their contents and their order. */
  lemma {:induction false} UnmanagedBlocksStay(cs: seq<Component>, doc: Document, values: Values, t: Target, u: Matcher)
    requires Tidy(cs) && Foreign(u, cs, t)
    ensures AllBlocks(BlocksFor(AppliedAll(cs, doc, values), t), u) == AllBlocks(BlocksFor(doc, t), u)
  {
    if cs != [] {
      var c, bs := cs[0], BlocksFor(doc, cs[0].target);
      assert c in cs;
      UnmanagedBlocksStay(cs[1..], Applied(c, doc, values), values, t, u);
      if c.target == t {
        OthersKeep(bs, c.matches, Replacement(c, bs, values), u);
      }
    }
  }

  lemma {:induction false} OwnReplacementIsFound(cs: seq<Component>, doc: Document, values: Values, i: nat)
    requires Separate(cs) && Tidy(cs) && i < |cs| && !cs[i].target.Elsewhere?
    ensures var t := cs[i].target;
            AllBlocks(BlocksFor(AppliedAll(cs, doc, values), t), cs[i].matches)
            == Replacement(cs[i], BlocksFor(doc, t), values)
  {
    var c, rest, t := cs[0], cs[1..], cs[i].target;
    assert c in cs;
    assert forall k | 0 <= k < |rest| :: rest[k] == cs[k + 1];
    var bs := BlocksFor(doc, c.target);
    if i == 0 {
      PutGet(bs, c.matches, Replacement(c, bs, values));
      forall d | d in rest && d.target == t ensures Disjoint(d.matches, c.matches) {
        var k :| 0 <= k < |rest| && rest[k] == d;
        assert Disjoint(cs[0].matches, cs[k + 1].matches);
      }
      UnmanagedBlocksStay(rest, Applied(c, doc, values), values, t, c.matches);
    } else {
      assert Separate(rest);
      OwnReplacementIsFound(rest, Applied(c, doc, values), values, i - 1);
      if c.target == t {
        OthersKeep(bs, c.matches, Replacement(c, bs, values), cs[i].matches);
      }
    }
  }

  /** After all components are applied, each finds exactly what it made of its
      own blocks of the document as it was and of the fields under its name. */
  lemma EachFindsItsOwn(cs: seq<Component>, doc: Document, values: Values, i: nat)
    requires Separate(cs) && Tidy(cs) && i < |cs|
    ensures var c, after := cs[i], AppliedAll(cs, doc, values);
            && (c.target.Meta? ==>
                  AllBlocks(after.meta, c.matches) == c.apply(AllBlocks(doc.meta, c.matches), Stripped(c.name, values)))
            && (c.target.Links? ==>
                  AllBlocks(after.links, c.matches) == c.apply(AllBlocks(doc.links, c.matches), Stripped(c.name, values)))
  {
    if !cs[i].target.Elsewhere? {
      OwnReplacementIsFound(cs, doc, values, i);
    }
  }

  /** What no component is for stays as it is: the content always, and the meta
      blocks or the links if no component targets them. */
  lemma {:induction false} OtherTargetsStay(cs: seq<Component>, doc: Document, values: Values)
    ensures var after := AppliedAll(cs, doc, values);
            && after.content == doc.content
            && ((forall c | c in cs :: !c.target.Meta?) ==> after.meta == doc.meta)
            && ((forall c | c in cs :: !c.target.Links?) ==> after.links == doc.links)
  {
    if cs != [] {
      assert cs[0] in cs;
      OtherTargetsStay(cs[1..], Applied(cs[0], doc, values), values);
    }
  }

  ghost predicate Free(u: Matcher, edits: seq<Edit>) {
    forall k | 0 <= k < |edits| :: Disjoint(edits[k].matches, u) && AllMatch(edits[k].repl, edits[k].matches)
  }

  lemma {:induction false} UnplacedIsOwned(edits: seq<Edit>, u: Matcher)
    requires Free(u, edits)
    ensures AllBlocks(Unplaced(edits), u) == []
  {
    if edits != [] {
      UnplacedIsOwned(edits[1..], u);
      Concat(Due(edits[0]), Unplaced(edits[1..]), u);
      Uniform(Due(edits[0]), u);
    }
  }

  /** What the walk puts out for blocks that others may follow. */
  function Out(bs: seq<Block>, edits: seq<Edit>): seq<Block>
    decreases |bs|
  {
    if bs == [] then []
    else
      var i := Owner(edits, bs[0]);
      if i == |edits| then [bs[0]] + Out(bs[1..], edits) else Due(edits[i]) + Out(bs[1..], Mark(edits, i))
  }

  /** The edits once the walk has passed those blocks. */
  function After(bs: seq<Block>, edits: seq<Edit>): (r: seq<Edit>)
    ensures |r| == |edits|
    decreases |bs|
  {
    if bs == [] then edits
    else
      var i := Owner(edits, bs[0]);
      After(bs[1..], if i == |edits| then edits else Mark(edits, i))
  }

  lemma {:induction false} RenderSplits(x: seq<Block>, y: seq<Block>, edits: seq<Edit>)
    ensures Render(x + y, edits) == Out(x, edits) + Render(y, After(x, edits))
    decreases |x|
  {
    if x == [] {
      assert x + y == y;
    } else {
      var i := Owner(edits, x[0]);
      assert (x + y)[1..] == x[1..] + y;
      RenderSplits(x[1..], y, if i == |edits| then edits else Mark(edits, i));
    }
  }

  lemma MarkKeeps(edits: seq<Edit>, u: Matcher, i: nat)
    requires Free(u, edits) && i < |edits|
    ensures Free(u, Mark(edits, i))
  {
  }

  lemma HeadIsOwned(edits: seq<Edit>, u: Matcher, i: nat, b: Block)
    requires Free(u, edits) && i < |edits| && edits[i].matches(b)
    ensures AllBlocks(Due(edits[i]), u) == [] && !u(b)
  {
    Uniform(Due(edits[i]), u);
  }

  lemma {:induction false} OutKeepsUnowned(bs: seq<Block>, edits: seq<Edit>, u: Matcher)
    requires Free(u, edits)
    ensures AllBlocks(Out(bs, edits), u) == AllBlocks(bs, u)
    ensures Free(u, After(bs, edits))
    decreases |bs|
  {
    if bs != [] {
      var i := Owner(edits, bs[0]);
      if i == |edits| {
        OutKeepsUnowned(bs[1..], edits, u);
        Concat([bs[0]], Out(bs[1..], edits), u);
      } else {
        MarkKeeps(edits, u, i);
        HeadIsOwned(edits, u, i, bs[0]);
        OutKeepsUnowned(bs[1..], Mark(edits, i), u);
        Concat(Due(edits[i]), Out(bs[1..], Mark(edits, i)), u);
      }
    }
  }

  lemma RenderKeepsUnowned(bs: seq<Block>, edits: seq<Edit>, u: Matcher)
    requires Free(u, edits)
    ensures AllBlocks(Render(bs, edits), u) == AllBlocks(bs, u)
  {
    RenderSplits(bs, [], edits);
    assert bs + [] == bs;
    OutKeepsUnowned(bs, edits, u);
    UnplacedIsOwned(After(bs, edits), u);
    Concat(Out(bs, edits), Unplaced(After(bs, edits)), u);
  }

  predicate OnlyOwner(edits: seq<Edit>, k: nat, b: Block) {
    forall j | 0 <= j < |edits| :: edits[j].matches(b) <==> j == k
  }

  /** An edit none of whose blocks the walk has met is as it was. */
  lemma {:induction false} StillDue(bs: seq<Block>, edits: seq<Edit>, k: nat, b: Block)
    requires k < |edits| && NoneMatch(bs, edits[k].matches) && OnlyOwner(edits, k, b)
    ensures After(bs, edits)[k] == edits[k] && OnlyOwner(After(bs, edits), k, b)
    decreases |bs|
  {
    if bs != [] {
      var i := Owner(edits, bs[0]);
      assert bs[0] in bs;
      StillDue(bs[1..], if i == |edits| then edits else Mark(edits, i), k, b);
    }
  }

  /** The walk places a replacement where the first match was. */
  lemma PlacedAtFirstMatch(bs: seq<Block>, edits: seq<Edit>, u: Matcher, k: nat, p: nat)
    returns (a: seq<Block>, z: seq<Block>)
    requires Free(u, edits) && k < |edits| && !edits[k].done && p < |bs|
    requires NoneMatch(bs[..p], edits[k].matches) && OnlyOwner(edits, k, bs[p])
    ensures Render(bs, edits) == a + edits[k].repl + z
    ensures AllBlocks(a, u) == AllBlocks(bs[..p], u)
    ensures AllBlocks(z, u) == AllBlocks(bs[p + 1..], u)
  {
    var x, y := bs[..p], bs[p..];
    assert bs == x + y && y[1..] == bs[p + 1..];
    a, z := PlacedBetween(x, y, edits, u, k);
  }

  lemma PlacedBetween(x: seq<Block>, y: seq<Block>, edits: seq<Edit>, u: Matcher, k: nat)
    returns (a: seq<Block>, z: seq<Block>)
    requires Free(u, edits) && k < |edits| && !edits[k].done && y != []
    requires NoneMatch(x, edits[k].matches) && OnlyOwner(edits, k, y[0])
    ensures Render(x + y, edits) == a + edits[k].repl + z
    ensures AllBlocks(a, u) == AllBlocks(x, u) && AllBlocks(z, u) == AllBlocks(y[1..], u)
  {
    var met := After(x, edits);
    StillDue(x, edits, k, y[0]);
    OutKeepsUnowned(x, edits, u);
    RenderSplits(x, y, edits);
    PlacedHere(y, met, u, k);
    a, z := Out(x, edits), Render(y[1..], Mark(met, k));
    assert a + (met[k].repl + z) == a + met[k].repl + z;
  }

  lemma PlacedHere(y: seq<Block>, edits: seq<Edit>, u: Matcher, k: nat)
    requires Free(u, edits) && k < |edits| && !edits[k].done && y != [] && OnlyOwner(edits, k, y[0])
    ensures Render(y, edits) == edits[k].repl + Render(y[1..], Mark(edits, k))
    ensures AllBlocks(Render(y[1..], Mark(edits, k)), u) == AllBlocks(y[1..], u)
  {
    assert Owner(edits, y[0]) == k;
    MarkKeeps(edits, u, k);
    RenderKeepsUnowned(y[1..], Mark(edits, k), u);
  }

  /** Where a component's edit is among those of its target. */
  lemma {:induction false} EditOf(cs: seq<Component>, t: Target, bs: seq<Block>, values: Values, i: nat, b: Block)
    returns (k: nat)
    requires Separate(cs) && i < |cs| && cs[i].target == t && cs[i].matches(b)
    ensures var edits := EditsFor(cs, t, bs, values);
            && k < |edits| && edits[k] == Edit(cs[i].matches, Replacement(cs[i], bs, values), false)
            && OnlyOwner(edits, k, b)
  {
    var rest := cs[1..];
    assert forall j | 0 <= j < |rest| :: rest[j] == cs[j + 1];
    if i == 0 {
      k := 0;
      FirstIsApart(cs, t);
      EditsApart(rest, t, bs, values, Edit(cs[0].matches, [], false));
    } else {
      k := EditOf(rest, t, bs, values, i - 1, b);
      if cs[0].target == t {
        assert Disjoint(cs[0].matches, cs[i].matches);
        k := k + 1;
      }
    }
  }

  lemma FirstIsApart(cs: seq<Component>, t: Target)
    requires Separate(cs) && cs != [] && cs[0].target == t
    ensures forall d | d in cs[1..] && d.target == t :: Disjoint(cs[0].matches, d.matches)
  {
    var rest := cs[1..];
    forall d | d in rest && d.target == t ensures Disjoint(cs[0].matches, d.matches) {
      var j :| 0 <= j < |rest| && rest[j] == d;
      assert cs[j + 1] == d;
    }
  }

  lemma {:induction false} EditsFree(cs: seq<Component>, t: Target, bs: seq<Block>, values: Values, u: Matcher)
    requires Tidy(cs) && Foreign(u, cs, t)
    ensures Free(u, EditsFor(cs, t, bs, values))
  {
    if cs != [] {
      assert cs[0] in cs;
      EditsFree(cs[1..], t, bs, values, u);
    }
  }

  /** A replacement sits where its component's first match was: the blocks
      nobody owns that come before it, and those that come after it, are the
      ones that did so before. */
  lemma ReplacementSitsAtFirstMatch(cs: seq<Component>, doc: Document, values: Values, i: nat, p: nat, u: Matcher)
    returns (a: seq<Block>, z: seq<Block>)
    requires Separate(cs) && Tidy(cs) && i < |cs| && !cs[i].target.Elsewhere? && Foreign(u, cs, cs[i].target)
    requires var bs := BlocksFor(doc, cs[i].target);
             p < |bs| && cs[i].matches(bs[p]) && NoneMatch(bs[..p], cs[i].matches)
    ensures var t := cs[i].target;
            var bs := BlocksFor(doc, t);
            && BlocksFor(AppliedAll(cs, doc, values), t)
               == a + cs[i].apply(AllBlocks(bs, cs[i].matches), Stripped(cs[i].name, values)) + z
            && AllBlocks(a, u) == AllBlocks(bs[..p], u)
            && AllBlocks(z, u) == AllBlocks(bs[p + 1..], u)
  {
    var t := cs[i].target;
    var bs := BlocksFor(doc, t);
    ApplyAllIsOneWalk(cs, doc, values, t);
    EditsFree(cs, t, bs, values, u);
    var k := EditOf(cs, t, bs, values, i, bs[p]);
    a, z := PlacedAtFirstMatch(bs, EditsFor(cs, t, bs, values), u, k, p);
  }
}
