/** Document forms: components that each own the blocks their matcher selects,
    and write them back among blocks nobody owns. */
module DocForm {
  import opened Common

  datatype Block = Block(kind: string, rel: string, role: string, uuid: string, title: string, data: map<string, string>)

  type Matcher = Block -> bool

  type Values = map<string, seq<string>>

  datatype Target = Meta | Links | Elsewhere

  datatype Document = Document(meta: seq<Block>, links: seq<Block>, content: seq<Block>)

  datatype Component = Component(
    name: string,
    template: string,
    target: Target,
    matches: Matcher,
    extract: seq<Block> -> string,
    apply: (seq<Block>, Values) -> seq<Block>)

  datatype ComponentBlock = ComponentBlock(template: string, data: string)

  function BlocksFor(doc: Document, t: Target): seq<Block> {
    match t
    case Meta => doc.meta
    case Links => doc.links
    case Elsewhere => []
  }

  /** The blocks a matcher selects, in order. */
  function AllBlocks(bs: seq<Block>, m: Matcher): seq<Block> {
    if bs == [] then [] else (if m(bs[0]) then [bs[0]] else []) + AllBlocks(bs[1..], m)
  }

  /** The blocks it does not select, in order. */
  function DropBlocks(bs: seq<Block>, m: Matcher): seq<Block> {
    AllBlocks(bs, b => !m(b))
  }

  /** The replacement at the first match, or at the end if there is none, and
      no other match left. */
  function Replaced(bs: seq<Block>, m: Matcher, repl: seq<Block>): seq<Block> {
    if bs == [] then repl
    else if m(bs[0]) then repl + DropBlocks(bs[1..], m)
    else [bs[0]] + Replaced(bs[1..], m, repl)
  }

  predicate AllMatch(bs: seq<Block>, m: Matcher) {
    forall b | b in bs :: m(b)
  }

  predicate NoneMatch(bs: seq<Block>, m: Matcher) {
    forall b | b in bs :: !m(b)
  }

  lemma {:induction false} Concat(a: seq<Block>, b: seq<Block>, m: Matcher)
    ensures AllBlocks(a + b, m) == AllBlocks(a, m) + AllBlocks(b, m)
  {
    if a == [] {
      assert a + b == b;
    } else {
      assert (a + b)[0] == a[0] && (a + b)[1..] == a[1..] + b;
      Concat(a[1..], b, m);
      var head := if m(a[0]) then [a[0]] else [];
      assert head + (AllBlocks(a[1..], m) + AllBlocks(b, m)) == (head + AllBlocks(a[1..], m)) + AllBlocks(b, m);
    }
  }

  lemma {:induction false} Uniform(bs: seq<Block>, m: Matcher)
    ensures AllMatch(bs, m) ==> AllBlocks(bs, m) == bs
    ensures NoneMatch(bs, m) ==> AllBlocks(bs, m) == []
  {
    if bs != [] {
      Uniform(bs[1..], m);
      assert bs == [bs[0]] + bs[1..];
    }
  }

  lemma DropConcat(a: seq<Block>, b: seq<Block>, m: Matcher)
    ensures DropBlocks(a + b, m) == DropBlocks(a, m) + DropBlocks(b, m)
  {
    Concat(a, b, b => !m(b));
  }

  lemma DropUniform(bs: seq<Block>, m: Matcher)
    ensures NoneMatch(bs, m) ==> DropBlocks(bs, m) == bs
    ensures AllMatch(bs, m) ==> DropBlocks(bs, m) == []
  {
    Uniform(bs, b => !m(b));
  }

  lemma DropStep(bs: seq<Block>, m: Matcher)
    requires bs != []
    ensures DropBlocks(bs, m) == if m(bs[0]) then DropBlocks(bs[1..], m) else [bs[0]] + DropBlocks(bs[1..], m)
  {
  }

  /** Where the replacement goes, seen from the first match. */
  lemma {:induction false} ReplacedAt(bs: seq<Block>, m: Matcher, repl: seq<Block>, first: nat)
    requires first <= |bs| && NoneMatch(bs[..first], m)
    requires first < |bs| ==> m(bs[first])
    ensures Replaced(bs, m, repl) == bs[..first] + repl + DropBlocks(bs[first..], m)
    ensures DropBlocks(bs, m) == bs[..first] + DropBlocks(bs[first..], m)
  {
    if first > 0 {
      assert bs[0] in bs[..first];
      assert bs[1..][..first - 1] == bs[..first][1..];
      assert bs[1..][first - 1..] == bs[first..];
      ReplacedAt(bs[1..], m, repl, first - 1);
    } else if bs != [] {
      assert bs[0..] == bs;
    }
  }

  /** What replaceBlocks computes, loop by loop. No match precedes the first
      one, so the index it adjusts is never adjusted, and since every block
      before it is kept, the clamp never fires. */
  method ReplaceBlocks(bs: seq<Block>, m: Matcher, repl: seq<Block>) returns (r: seq<Block>)
    ensures r == Replaced(bs, m, repl)
  {
    var firstIdx := -1;
    for i := 0 to |bs|
      invariant -1 <= firstIdx < i
      invariant firstIdx == -1 ==> NoneMatch(bs[..i], m)
      invariant firstIdx >= 0 ==> m(bs[firstIdx]) && NoneMatch(bs[..firstIdx], m)
    {
      if m(bs[i]) {
        if firstIdx == -1 {
          firstIdx := i;
        }
      }
    }
    var filtered := DropBlocks(bs, m);
    assert bs[..|bs|] == bs;
    ReplacedAt(bs, m, repl, if firstIdx == -1 then |bs| else firstIdx);
    if |repl| == 0 {
      return filtered;
    }
    if firstIdx == -1 {
      return filtered + repl;
    }
    var adjustedIdx, removed, i := 0, 0, 0;
    while i < |bs|
      invariant 0 <= i <= firstIdx && removed == 0
    {
      if i == firstIdx {
        adjustedIdx := i - removed;
        break;
      }
      assert bs[i] in bs[..firstIdx];
      if m(bs[i]) {
        removed := removed + 1;
      }
      i := i + 1;
    }
    assert adjustedIdx == firstIdx <= |filtered|;
    if adjustedIdx > |filtered| {
      adjustedIdx := |filtered|;
    }
    return filtered[..adjustedIdx] + repl + filtered[adjustedIdx..];
  }

  // ----- one component as a lens -----

  ghost predicate Disjoint(m: Matcher, n: Matcher) {
    forall b :: !(m(b) && n(b))
  }

  /** Extracting what was applied gives what was applied, and leaves what the
      component does not own. */
  lemma {:induction false} PutGet(bs: seq<Block>, m: Matcher, repl: seq<Block>)
    requires AllMatch(repl, m)
    ensures AllBlocks(Replaced(bs, m, repl), m) == repl
    ensures DropBlocks(Replaced(bs, m, repl), m) == DropBlocks(bs, m)
  {
    Uniform(repl, m);
    DropUniform(repl, m);
    if bs != [] {
      if m(bs[0]) {
        var rest := DropBlocks(bs[1..], m);
        Dropped(bs[1..], m);
        Concat(repl, rest, m);
        Uniform(rest, m);
        DropConcat(repl, rest, m);
        DropUniform(rest, m);
      } else {
        PutGet(bs[1..], m, repl);
        Concat([bs[0]], Replaced(bs[1..], m, repl), m);
        DropConcat([bs[0]], Replaced(bs[1..], m, repl), m);
      }
    }
  }

  lemma {:induction false} Dropped(bs: seq<Block>, m: Matcher)
    ensures NoneMatch(DropBlocks(bs, m), m)
  {
    if bs != [] {
      Dropped(bs[1..], m);
    }
  }

  /** Another component's blocks stay as they are. */
  lemma {:induction false} OthersKeep(bs: seq<Block>, m: Matcher, repl: seq<Block>, n: Matcher)
    requires AllMatch(repl, m) && Disjoint(m, n)
    ensures AllBlocks(Replaced(bs, m, repl), n) == AllBlocks(bs, n)
    ensures AllBlocks(DropBlocks(bs, m), n) == AllBlocks(bs, n)
  {
    Uniform(repl, n);
    if bs != [] {
      OthersKeep(bs[1..], m, repl, n);
      DropStep(bs, m);
      Concat(repl, DropBlocks(bs[1..], m), n);
      Concat([bs[0]], Replaced(bs[1..], m, repl), n);
      Concat([bs[0]], DropBlocks(bs[1..], m), n);
    }
  }

  /** A second application forgets a first that left anything behind. */
  lemma {:induction false} PutPut(bs: seq<Block>, m: Matcher, a: seq<Block>, b: seq<Block>)
    requires AllMatch(a, m) && a != []
    ensures Replaced(Replaced(bs, m, a), m, b) == Replaced(bs, m, b)
  {
    if bs == [] {
      assert a + [] == a;
      PutAgain(a, [], m, b);
    } else if m(bs[0]) {
      Dropped(bs[1..], m);
      PutAgain(a, DropBlocks(bs[1..], m), m, b);
    } else {
      assert ([bs[0]] + Replaced(bs[1..], m, a))[1..] == Replaced(bs[1..], m, a);
      PutPut(bs[1..], m, a, b);
    }
  }

  /** One that left nothing behind has lost the place: the next goes last. */
  lemma EmptyPutLosesThePlace(bs: seq<Block>, m: Matcher, b: seq<Block>)
    ensures Replaced(Replaced(bs, m, []), m, b) == DropBlocks(bs, m) + b
  {
    PutGet(bs, m, []);
    var left := Replaced(bs, m, []);
    NothingOwned(left, m);
    assert left[..|left|] == left && left[|left|..] == [];
    ReplacedAt(left, m, b, |left|);
  }

  lemma {:induction false} NothingOwned(bs: seq<Block>, m: Matcher)
    requires AllBlocks(bs, m) == []
    ensures NoneMatch(bs, m) && DropBlocks(bs, m) == bs
  {
    if bs != [] {
      NothingOwned(bs[1..], m);
      assert bs == [bs[0]] + bs[1..];
    }
  }

  lemma PutAgain(a: seq<Block>, rest: seq<Block>, m: Matcher, b: seq<Block>)
    requires AllMatch(a, m) && a != [] && NoneMatch(rest, m)
    ensures Replaced(a + rest, m, b) == b + rest
  {
    assert (a + rest)[1..] == a[1..] + rest;
    DropConcat(a[1..], rest, m);
    DropUniform(a[1..], m);
    DropUniform(rest, m);
    assert [] + rest == rest;
  }

  lemma {:induction false} Owned(bs: seq<Block>, m: Matcher)
    ensures AllMatch(AllBlocks(bs, m), m)
  {
    if bs != [] {
      Owned(bs[1..], m);
    }
  }

  lemma {:induction false} FirstMatch(bs: seq<Block>, m: Matcher) returns (f: nat)
    ensures f <= |bs| && NoneMatch(bs[..f], m) && (f < |bs| ==> m(bs[f]))
  {
    if bs == [] || m(bs[0]) {
      f := 0;
    } else {
      f := FirstMatch(bs[1..], m);
      f := f + 1;
      assert bs[..f] == [bs[0]] + bs[1..][..f - 1];
    }
  }

  /** No block of somebody else stands between two the component owns. */
  predicate Together(bs: seq<Block>, m: Matcher) {
    exists i, j | 0 <= i <= j <= |bs| :: TogetherAt(bs, m, i, j)
  }

  predicate TogetherAt(bs: seq<Block>, m: Matcher, i: nat, j: nat)
    requires i <= j <= |bs|
  {
    NoneMatch(bs[..i], m) && AllMatch(bs[i..j], m) && NoneMatch(bs[j..], m)
  }

  /** Putting back what is there changes nothing exactly when the component's
      blocks stand together: otherwise they are gathered at the first. */
  lemma GetPutIffTogether(bs: seq<Block>, m: Matcher)
    ensures Replaced(bs, m, AllBlocks(bs, m)) == bs <==> Together(bs, m)
  {
    var own := AllBlocks(bs, m);
    if Together(bs, m) {
      var i, j :| 0 <= i <= j <= |bs| && TogetherAt(bs, m, i, j);
      assert bs == bs[..i] + (bs[i..j] + bs[j..]);
      Gathered(bs[..i], bs[i..j], bs[j..], m);
      TogetherStays(bs[..i], bs[i..j], bs[j..], m);
    }
    if Replaced(bs, m, own) == bs {
      var f := FirstMatch(bs, m);
      ReplacedAt(bs, m, own, f);
      Owned(bs, m);
      Dropped(bs[f..], m);
      assert bs[f..f + |own|] == own && bs[f + |own|..] == DropBlocks(bs[f..], m);
      assert TogetherAt(bs, m, f, f + |own|);
    }
  }

  lemma TogetherStays(a: seq<Block>, o: seq<Block>, z: seq<Block>, m: Matcher)
    requires NoneMatch(a, m) && AllMatch(o, m) && NoneMatch(z, m)
    ensures Replaced(a + (o + z), m, o) == a + (o + z)
  {
    ReplacedAfter(a, o + z, m, o);
    if o == [] {
      assert o + z == z && z + [] == z;
      ReplacedAfter(z, [], m, o);
    } else {
      PutAgain(o, z, m, o);
    }
  }

  lemma {:induction false} ReplacedAfter(a: seq<Block>, y: seq<Block>, m: Matcher, repl: seq<Block>)
    requires NoneMatch(a, m)
    ensures Replaced(a + y, m, repl) == a + Replaced(y, m, repl)
  {
    if a == [] {
      assert a + y == y;
    } else {
      assert (a + y)[1..] == a[1..] + y;
      ReplacedAfter(a[1..], y, m, repl);
    }
  }

  lemma Gathered(a: seq<Block>, o: seq<Block>, z: seq<Block>, m: Matcher)
    requires NoneMatch(a, m) && AllMatch(o, m) && NoneMatch(z, m)
    ensures AllBlocks(a + (o + z), m) == o
  {
    Concat(a, o + z, m);
    Concat(o, z, m);
    Uniform(a, m);
    Uniform(o, m);
    Uniform(z, m);
    assert [] + (o + []) == o;
  }

  // ----- the form -----

  predicate HasPrefix(prefix: string, key: string) {
    prefix <= key
  }

  function Dotted(name: string): string {
    name + "."
  }

  /** The fields of one component: those under its name and a dot. */
  function Stripped(name: string, values: Values): (r: Values)
    ensures forall k :: k in r <==> Dotted(name) + k in values
    ensures forall k | k in r :: r[k] == values[Dotted(name) + k]
  {
    var dot := Dotted(name);
    var keys := set key | key in values && HasPrefix(dot, key) :: key[|dot|..];
    assert forall key | key in values && HasPrefix(dot, key) :: dot + key[|dot|..] == key;
    assert forall k :: (dot + k)[|dot|..] == k;
    map k | k in keys :: values[dot + k]
  }

  method StripPrefix(name: string, values: Values) returns (result: Values)
    ensures result == Stripped(name, values)
  {
    var dot := Dotted(name);
    result := map[];
    var todo := values.Keys;
    while todo != {}
      invariant todo <= values.Keys
      invariant forall k | k in result :: dot + k in values && result[k] == values[dot + k]
      invariant forall k | dot + k in values :: dot + k in todo || k in result
      decreases |todo|
    {
      var key :| key in todo;
      todo := todo - {key};
      if HasPrefix(dot, key) {
        var rest := key[|dot|..];
        assert dot + rest == key;
        assert forall k | dot + k == key :: k == (dot + k)[|dot|..] == rest;
        result := result[rest := values[key]];
      }
    }
  }

  /** Two components read a field in common exactly when one name, with its
      dot, begins the other. */
  lemma SharedFieldsIff(a: string, b: string)
    ensures (exists key :: HasPrefix(Dotted(a), key) && HasPrefix(Dotted(b), key))
            <==> HasPrefix(Dotted(a), Dotted(b)) || HasPrefix(Dotted(b), Dotted(a))
  {
    if key :| HasPrefix(Dotted(a), key) && HasPrefix(Dotted(b), key) {
      assert Dotted(a) == key[..|Dotted(a)|] && Dotted(b) == key[..|Dotted(b)|];
    } else {
      assert HasPrefix(Dotted(a), Dotted(a)) && HasPrefix(Dotted(b), Dotted(b));
    }
  }

  ghost predicate Parsed(cs: seq<Component>, values: Values, r: map<string, Values>) {
    && (forall n | n in r :: exists c | c in cs :: c.name == n)
    && (forall c | c in cs :: c.name in r && r[c.name] == Stripped(c.name, values))
  }

  method ParseValues(cs: seq<Component>, values: Values) returns (r: map<string, Values>)
    ensures Parsed(cs, values, r)
  {
    r := map[];
    for i := 0 to |cs|
      invariant Parsed(cs[..i], values, r)
    {
      var v := StripPrefix(cs[i].name, values);
      assert cs[..i + 1] == cs[..i] + [cs[i]];
      r := r[cs[i].name := v];
    }
    assert cs[..|cs|] == cs;
  }

  function WithBlocks(doc: Document, t: Target, bs: seq<Block>): Document {
    match t
    case Meta => doc.(meta := bs)
    case Links => doc.(links := bs)
    case Elsewhere => doc
  }

  /** What a component makes of the blocks of its target. */
  function Replacement(c: Component, bs: seq<Block>, values: Values): seq<Block> {
    c.apply(AllBlocks(bs, c.matches), Stripped(c.name, values))
  }

  function Applied(c: Component, doc: Document, values: Values): Document {
    var bs := BlocksFor(doc, c.target);
    WithBlocks(doc, c.target, Replaced(bs, c.matches, Replacement(c, bs, values)))
  }

  /** The components in turn, each on what the last one left. */
  function AppliedAll(cs: seq<Component>, doc: Document, values: Values): Document {
    if cs == [] then doc else AppliedAll(cs[1..], Applied(cs[0], doc, values), values)
  }

  method ApplyAll(cs: seq<Component>, doc: Document, values: Values) returns (r: Document)
    ensures r == AppliedAll(cs, doc, values)
  {
    var parsed := ParseValues(cs, values);
    r := doc;
    for i := 0 to |cs|
      invariant AppliedAll(cs[i..], r, values) == AppliedAll(cs, doc, values)
    {
      var c := cs[i];
      var blocks := BlocksFor(r, c.target);
      var matched := AllBlocks(blocks, c.matches);
      var replacement := c.apply(matched, parsed[c.name]);
      blocks := ReplaceBlocks(blocks, c.matches, replacement);
      assert cs[i..][1..] == cs[i + 1..];
      match c.target {
        case Meta => r := r.(meta := blocks);
        case Links => r := r.(links := blocks);
        case Elsewhere =>
      }
    }
  }

  method ExtractAll(cs: seq<Component>, doc: Document) returns (r: seq<ComponentBlock>)
    ensures |r| == |cs|
    ensures forall i | 0 <= i < |cs| ::
              r[i] == ComponentBlock(cs[i].template, cs[i].extract(AllBlocks(BlocksFor(doc, cs[i].target), cs[i].matches)))
  {
    r := [];
    for i := 0 to |cs|
      invariant |r| == i
      invariant forall k | 0 <= k < i ::
                  r[k] == ComponentBlock(cs[k].template, cs[k].extract(AllBlocks(BlocksFor(doc, cs[k].target), cs[k].matches)))
    {
      var matched := AllBlocks(BlocksFor(doc, cs[i].target), cs[i].matches);
      r := r + [ComponentBlock(cs[i].template, cs[i].extract(matched))];
    }
  }
}
