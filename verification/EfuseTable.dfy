/**
 * The verifier of the eFuse table generator: interval checks over fields with
 * dotted, nested names, and what a table that passes them is worth.
 */
module EfuseTable {
  import opened Common

  /** `group` is empty, or tells apart the parts of a field that share its name. */
  datatype Field = Field(name: string, group: string, block: string, start: int, count: int)

  const DOT: char := '.'

  // ----- names ----------------------------------------------------------------------

  predicate Dotted(name: string) { DOT in name }

  /** The parts of a name between its dots. */
  function Split(name: string): (parts: seq<string>)
    ensures |parts| >= 1 && DOT !in parts[0]
    ensures Dotted(name) <==> |parts| >= 2
  {
    if name == [] then [""]
    else
      var rest := Split(name[1..]);
      if name[0] == DOT then [""] + rest else [[name[0]] + rest[0]] + rest[1..]
  }

  /** The name of the top-level field a dotted name belongs to. */
  function Root(name: string): string { Split(name)[0] }

  function NextName(acc: string, part: string): string {
    if acc == "" then part else acc + [DOT] + part
  }

  /** The names of the enclosing fields, outermost first, as the loops build them up. */
  function Prefixes(acc: string, parts: seq<string>): (r: seq<string>)
    ensures |r| == |parts|
    ensures parts != [] && acc == "" ==> r[0] == parts[0]
    decreases |parts|
  {
    if parts == [] then []
    else
      var name := NextName(acc, parts[0]);
      [name] + Prefixes(name, parts[1..])
  }

  // ----- duplicate names ---------------------------------------------------------------

  /** The name a field has in the generated C code. */
  function Underscored(name: string): (r: string)
    ensures |r| == |name| && forall i :: 0 <= i < |r| ==> r[i] == if name[i] == DOT then '_' else name[i]
    ensures !Dotted(r) && (!Dotted(name) ==> r == name)
  {
    seq(|name|, i requires 0 <= i < |name| => if name[i] == DOT then '_' else name[i])
  }

  /** The C names of the dotted fields. */
  function DottedAsC(tab: seq<Field>): (r: seq<string>) {
    if tab == [] then []
    else
      var last := tab[|tab| - 1].name;
      DottedAsC(tab[..|tab| - 1]) + if Dotted(last) then [Underscored(last)] else []
  }

  function Names(tab: seq<Field>): (r: seq<string>)
    ensures |r| == |tab| && forall i :: 0 <= i < |r| ==> r[i] == tab[i].name
  {
    seq(|tab|, i requires 0 <= i < |tab| => tab[i].name)
  }

  /** A field's own name, with its group. */
  function FullName(f: Field): string { f.name + f.group }

  /** No field's full name occurs twice among the names and the dotted ones' C names. */
  predicate NamesUnique(tab: seq<Field>) {
    forall i :: 0 <= i < |tab| && FullName(tab[i]) != "" ==>
                  multiset(Names(tab) + DottedAsC(tab))[FullName(tab[i])] <= 1
  }

  /** A row has the name x, or is dotted and has the C name x. */
  predicate Hit(f: Field, x: string, asC: bool) {
    if asC then Dotted(f.name) && Underscored(f.name) == x else f.name == x
  }

  function Hits(tab: seq<Field>, x: string, asC: bool): nat {
    if tab == [] then 0
    else Hits(tab[..|tab| - 1], x, asC) + if Hit(tab[|tab| - 1], x, asC) then 1 else 0
  }

  lemma {:induction false} HitsCount(tab: seq<Field>, x: string)
    ensures multiset(Names(tab))[x] == Hits(tab, x, false)
    ensures multiset(DottedAsC(tab))[x] == Hits(tab, x, true)
  {
    hide Underscored;
    if tab != [] {
      var front, last := tab[..|tab| - 1], tab[|tab| - 1];
      HitsCount(front, x);
      assert Names(tab) == Names(front) + [last.name];
    }
  }

  predicate NoHit(tab: seq<Field>, x: string, asC: bool) {
    forall j :: 0 <= j < |tab| ==> !Hit(tab[j], x, asC)
  }

  predicate NoTwoHits(tab: seq<Field>, x: string, asC: bool) {
    forall j, k :: 0 <= j < k < |tab| ==> !(Hit(tab[j], x, asC) && Hit(tab[k], x, asC))
  }

  lemma {:induction false} HitsMeaning(tab: seq<Field>, x: string, asC: bool)
    ensures Hits(tab, x, asC) == 0 <==> NoHit(tab, x, asC)
    ensures Hits(tab, x, asC) <= 1 <==> NoTwoHits(tab, x, asC)
  {
    hide Hit;
    if tab != [] {
      var front, last := tab[..|tab| - 1], |tab| - 1;
      HitsMeaning(front, x, asC);
      if NoHit(front, x, asC) {
        forall j | 0 <= j < last ensures !Hit(tab[j], x, asC) {
          assert tab[j] == front[j];
        }
      } else {
        var j :| 0 <= j < |front| && Hit(front[j], x, asC);
        assert Hit(tab[j], x, asC);
      }
      if NoTwoHits(tab, x, asC) {
        forall j, k | 0 <= j < k < |front| ensures !(Hit(front[j], x, asC) && Hit(front[k], x, asC)) {
          assert tab[j] == front[j] && tab[k] == front[k];
        }
      } else {
        var j, k :| 0 <= j < k < |tab| && Hit(tab[j], x, asC) && Hit(tab[k], x, asC);
        assert tab[j] == front[j];
        assert k < last ==> tab[k] == front[k];
      }
    }
  }

  /** One row at most is named x or, being dotted, has the C name x. */
  predicate AtMostOnce(tab: seq<Field>, x: string) {
    && NoTwoHits(tab, x, false) && NoTwoHits(tab, x, true)
    && (NoHit(tab, x, false) || NoHit(tab, x, true))
  }

  /** What the check means, for every table. */
  lemma UniqueMeaning(tab: seq<Field>)
    ensures NamesUnique(tab) <==>
            forall i :: 0 <= i < |tab| && FullName(tab[i]) != "" ==> AtMostOnce(tab, FullName(tab[i]))
  {
    hide FullName, Names, DottedAsC, AtMostOnce;
    forall i | 0 <= i < |tab|
      ensures multiset(Names(tab) + DottedAsC(tab))[FullName(tab[i])] <= 1 <==> AtMostOnce(tab, FullName(tab[i]))
    {
      OnceMeaning(tab, FullName(tab[i]));
    }
  }

  lemma OnceMeaning(tab: seq<Field>, x: string)
    ensures multiset(Names(tab) + DottedAsC(tab))[x] <= 1 <==> AtMostOnce(tab, x)
  {
    hide Names, DottedAsC, Hits, NoHit, NoTwoHits;
    assert multiset(Names(tab) + DottedAsC(tab))[x] == multiset(Names(tab))[x] + multiset(DottedAsC(tab))[x];
    HitsCount(tab, x);
    HitsMeaning(tab, x, false);
    HitsMeaning(tab, x, true);
  }

  /** For a row that is not part of a group: nobody else has its name, and nobody its name as C name. */
  predicate NameAlone(tab: seq<Field>, i: nat)
    requires i < |tab|
  {
    && (forall j :: 0 <= j < |tab| && j != i ==> tab[j].name != tab[i].name)
    && NoHit(tab, tab[i].name, true)
  }

  lemma AloneIffOnce(tab: seq<Field>, i: nat)
    requires i < |tab|
    ensures AtMostOnce(tab, tab[i].name) <==> NameAlone(tab, i)
  {
    hide Underscored;
    var x := tab[i].name;
    assert Hit(tab[i], x, false);
    if NameAlone(tab, i) {
      assert forall j :: 0 <= j < |tab| && Hit(tab[j], x, false) ==> j == i;
    } else if AtMostOnce(tab, x) {
      forall j | 0 <= j < |tab| && j != i ensures tab[j].name != x {
        assert !Hit(tab[j], x, false);
      }
      assert false;
    }
  }

  // ----- names in the C code ---------------------------------------------------------------

  /** Two rows are parts of one field, told apart by their groups. */
  predicate Parts(p: Field, q: Field) { p.name == q.name && p.group != "" && q.group != "" && p.group != q.group }

  /** Two rows have the same C name without being parts of one field. */
  predicate Clash(p: Field, q: Field) {
    p.name != "" && q.name != "" && Underscored(p.name) == Underscored(q.name) && !Parts(p, q)
  }

  /** Rows for which the check of names does not look at all clashes. */
  predicate Loose(f: Field) { Dotted(f.name) || f.group != "" }

  /** In a table that passes the check only loose rows can clash. */
  lemma ClashesAreLoose(tab: seq<Field>, i: nat, j: nat)
    requires NamesUnique(tab) && i < |tab| && j < |tab| && i != j && Clash(tab[i], tab[j])
    ensures Loose(tab[i]) && Loose(tab[j])
  {
    hide NamesUnique, Underscored;
    UniqueMeaning(tab);
    if !Loose(tab[i]) {
      LooseOrAlone(tab, i, j);
    }
    if !Loose(tab[j]) {
      LooseOrAlone(tab, j, i);
    }
  }

  /** A row that is not loose shares its C name with no other. */
  lemma LooseOrAlone(tab: seq<Field>, i: nat, j: nat)
    requires i < |tab| && j < |tab| && i != j && !Loose(tab[i]) && tab[i].name != ""
    requires AtMostOnce(tab, FullName(tab[i]))
    ensures Underscored(tab[j].name) != Underscored(tab[i].name)
  {
    hide Underscored, AtMostOnce;
    assert FullName(tab[i]) == tab[i].name;
    AloneIffOnce(tab, i);
    NotDotted(tab[i].name);
    NotDotted(tab[j].name);
    assert !Hit(tab[j], tab[i].name, true);
  }

  lemma NotDotted(name: string)
    ensures !Dotted(name) ==> Underscored(name) == name
  {
  }

  predicate NoClash(tab: seq<Field>) {
    forall i, j :: 0 <= i < j < |tab| ==> !Clash(tab[i], tab[j])
  }

  /** So its fields have different C names exactly if those with a dot or a group do. */
  lemma NoClashIff(tab: seq<Field>)
    requires NamesUnique(tab)
    ensures NoClash(tab) <==>
            forall i, j :: 0 <= i < j < |tab| && Loose(tab[i]) && Loose(tab[j]) ==> !Clash(tab[i], tab[j])
  {
    hide NamesUnique, Clash, Loose;
    forall i, j | 0 <= i < j < |tab| && Clash(tab[i], tab[j]) ensures Loose(tab[i]) && Loose(tab[j]) {
      ClashesAreLoose(tab, i, j);
    }
  }

  // ----- the names of the enclosing fields ----------------------------------------------------

  /** A name without the dots it starts with; the loops lose those. */
  function Strip(name: string): string {
    if name != [] && name[0] == DOT then Strip(name[1..]) else name
  }

  /** x is what stands in front of a dot of the name, from a position on. */
  ghost predicate BeforeDot(name: string, from: nat, x: string) {
    exists k :: from <= k < |name| && name[k] == DOT && x == Strip(name[..k])
  }

  lemma {:induction false} StripAppend(c: string, x: string)
    ensures Strip(c) != "" ==> Strip(c + x) == Strip(c) + x
    ensures Strip(c) == "" ==> Strip(c + x) == Strip(x)
  {
    if c == [] {
      assert c + x == x;
    } else {
      StripAppend(c[1..], x);
      assert (c + x)[1..] == c[1..] + x;
    }
  }

  /** The part in front of the first dot, and the rest. */
  lemma {:induction false} SplitFirst(name: string) returns (rest: string)
    requires Dotted(name)
    ensures !Dotted(Split(name)[0])
    ensures name == Split(name)[0] + ([DOT] + rest) && Split(name) == [Split(name)[0]] + Split(rest)
  {
    if name[0] == DOT {
      rest := name[1..];
      assert name == [] + ([DOT] + rest);
    } else {
      assert Dotted(name[1..]);
      rest := SplitFirst(name[1..]);
      assert name == [name[0]] + name[1..];
      Assoc([name[0]], Split(name[1..])[0], [DOT] + rest);
      assert Split(name) == [[name[0]] + Split(name[1..])[0]] + Split(rest);
    }
  }

  /** The name built up so far belongs to the characters read so far, which end in a dot, if any. */
  predicate ReadSoFar(acc: string, c: string) {
    if acc == "" then Strip(c) == "" else Strip(c) == acc + [DOT]
  }

  lemma OneMore(acc: string, c: string, part: string)
    requires ReadSoFar(acc, c) && !Dotted(part)
    ensures Strip(c + part) == NextName(acc, part) && ReadSoFar(NextName(acc, part), c + part + [DOT])
  {
    StripAppend(c, part);
    StripAppend(c + part, [DOT]);
    assert Strip(part) == part;
    assert [DOT][1..] == "";
  }

  /** The names built up are the stripped beginnings that end in front of a dot, and finally the whole name. */
  lemma {:induction false} PrefixesAre(acc: string, c: string, rest: string, x: string)
    requires ReadSoFar(acc, c)
    ensures var parts := Split(rest);
            && (x in Prefixes(acc, parts[..|parts| - 1]) <==> BeforeDot(c + rest, |c|, x))
            && (x in Prefixes(acc, parts) <==> BeforeDot(c + rest, |c|, x) || x == Strip(c + rest))
    decreases |rest|
  {
    hide Split, NextName, Strip, ReadSoFar;
    var parts := Split(rest);
    if !Dotted(rest) {
      SplitNone(rest);
      OneMore(acc, c, rest);
      NoDotBehind(c, rest, x);
      assert Prefixes(acc, [rest]) == [NextName(acc, rest)];
    } else {
      var next := SplitFirst(rest);
      var part := parts[0];
      var name := NextName(acc, part);
      OneMore(acc, c, part);
      Assoc(c, part, [DOT]);
      Assoc(c + part, [DOT], next);
      Assoc(c, part, [DOT] + next);
      var c' := c + part + [DOT];
      assert c' + next == c + rest;
      PrefixesAre(name, c', next, x);
      assert parts[..|parts| - 1][1..] == Split(next)[..|Split(next)| - 1] && parts[1..] == Split(next);
      FirstDot(c, part, next, x);
    }
  }

  lemma NoDotBehind(c: string, rest: string, x: string)
    requires !Dotted(rest)
    ensures !BeforeDot(c + rest, |c|, x)
  {
    forall k | |c| <= k < |c + rest| ensures (c + rest)[k] != DOT {
      assert (c + rest)[k] == rest[k - |c|];
    }
  }

  lemma FirstDot(c: string, part: string, next: string, x: string)
    requires !Dotted(part)
    ensures var name := c + part + [DOT] + next;
            BeforeDot(name, |c|, x) <==> x == Strip(c + part) || BeforeDot(name, |c + part + [DOT]|, x)
  {
    hide Strip;
    var name := c + part + [DOT] + next;
    var k0 := |c + part|;
    assert name[k0] == DOT && name[..k0] == c + part;
    forall k | |c| <= k < k0 ensures name[k] != DOT {
      assert name[k] == part[k - |c|];
    }
  }

  /** What the check of the roots means: for each dot, a row of the block has the name in front of it. */
  lemma RootsMeaning(tab: seq<Field>)
    ensures RootsPresent(tab) <==>
            forall i, k :: 0 <= i < |tab| && 0 <= k < |tab[i].name| && tab[i].name[k] == DOT ==>
                             HasNamed(tab, i, Strip(tab[i].name[..k]))
  {
    hide RowRooted, Strip, HasNamed;
    forall i | 0 <= i < |tab|
      ensures (Dotted(tab[i].name) ==> RowRooted(tab, i)) <==>
              forall k :: 0 <= k < |tab[i].name| && tab[i].name[k] == DOT ==> HasNamed(tab, i, Strip(tab[i].name[..k]))
    {
      RowMeaning(tab, i);
    }
  }

  lemma NothingRead()
    ensures ReadSoFar("", "")
  {
  }

  ghost predicate HasNamed(tab: seq<Field>, i: nat, name: string)
    requires i < |tab|
  {
    exists d: nat :: d < |tab| && Named(tab, i, d, name)
  }

  lemma RowMeaning(tab: seq<Field>, i: nat)
    requires i < |tab|
    ensures RowRooted(tab, i) <==>
            forall k :: 0 <= k < |tab[i].name| && tab[i].name[k] == DOT ==> HasNamed(tab, i, Strip(tab[i].name[..k]))
  {
    hide Split, Prefixes, Strip, Named;
    var name := tab[i].name;
    var parts := Split(name);
    var names := Prefixes("", parts[..|parts| - 1]);
    assert "" + name == name;
    NothingRead();
    forall k | 0 <= k < |names| ensures BeforeDot(name, 0, names[k]) {
      PrefixesAre("", "", name, names[k]);
    }
    forall x ensures x in names <==> BeforeDot(name, 0, x) {
      PrefixesAre("", "", name, x);
    }
    forall x ensures FirstNamed(tab, i, x, 0).Some? <==> HasNamed(tab, i, x) {
    }
    if RowRooted(tab, i) {
      forall k | 0 <= k < |name| && name[k] == DOT ensures HasNamed(tab, i, Strip(name[..k])) {
        assert BeforeDot(name, 0, Strip(name[..k]));
        assert Strip(name[..k]) in names;
      }
    } else {
      var k :| 0 <= k < |names| && FirstNamed(tab, i, names[k], 0).None?;
      assert BeforeDot(name, 0, names[k]);
    }
  }

  // ----- one field against another -----------------------------------------------------

  datatype Overlap = IncludedIn | IntersectedWith | Wraps | NoOverlap

  function Check(p: Field, n: Field): Overlap {
    var left, right := n.start, n.start + n.count - 1;
    var start, end := p.start, p.start + p.count - 1;
    if left <= start <= right then if left <= end <= right then IncludedIn else IntersectedWith
    else if left <= end <= right then IntersectedWith
    else if start <= left && right <= end then Wraps
    else NoOverlap
  }

  predicate Covers(f: Field, bit: int) { f.start <= bit < f.start + f.count }

  predicate Disjoint(p: Field, n: Field) {
    p.start + p.count <= n.start || n.start + n.count <= p.start
  }

  /** For fields of at least one bit the verdicts mean what they say about bits. */
  lemma CheckMeaning(p: Field, n: Field)
    requires p.count > 0 && n.count > 0
    ensures Check(p, n) == NoOverlap <==> Disjoint(p, n)
    ensures Disjoint(p, n) <==> forall b :: !(Covers(p, b) && Covers(n, b))
    ensures Check(p, n) == IncludedIn <==> forall b :: Covers(p, b) ==> Covers(n, b)
  {
    var last := p.start + p.count - 1;
    assert Covers(p, p.start) && Covers(p, last);
    assert Covers(n, n.start) && Covers(n, n.start + n.count - 1);
  }

  // ----- the whole table -----------------------------------------------------------------

  /** `max_blk_len` is the length of every block but the first. */
  function MaxBits(block: string, maxBlkLen: int): int {
    if block == "EFUSE_BLK0" then 256 else maxBlkLen
  }

  predicate InBounds(tab: seq<Field>, maxBlkLen: int) {
    forall i :: 0 <= i < |tab| ==> tab[i].start + tab[i].count <= MaxBits(tab[i].block, maxBlkLen)
  }

  /** Row d is another row of the same block with the given name. */
  predicate Named(tab: seq<Field>, i: nat, d: nat, name: string)
    requires i < |tab| && d < |tab|
  {
    i != d && tab[i].block == tab[d].block && tab[d].name == name
  }

  /** The first such row from row k on. */
  function FirstNamed(tab: seq<Field>, i: nat, name: string, k: nat): (r: Option<nat>)
    requires i < |tab| && k <= |tab|
    ensures r.Some? ==> k <= r.value < |tab| && Named(tab, i, r.value, name)
    ensures r.Some? ==> forall e :: k <= e < r.value ==> !Named(tab, i, e, name)
    ensures r.None? ==> forall e :: k <= e < |tab| ==> !Named(tab, i, e, name)
    decreases |tab| - k
  {
    if k == |tab| then None
    else if Named(tab, i, k, name) then Some(k)
    else FirstNamed(tab, i, name, k + 1)
  }

  /** All enclosing fields of row i are in its block. */
  predicate RowRooted(tab: seq<Field>, i: nat)
    requires i < |tab|
  {
    var parts := Split(tab[i].name);
    var names := Prefixes("", parts[..|parts| - 1]);
    forall k :: 0 <= k < |names| ==> FirstNamed(tab, i, names[k], 0).Some?
  }

  predicate RootsPresent(tab: seq<Field>) {
    forall i :: 0 <= i < |tab| && Dotted(tab[i].name) ==> RowRooted(tab, i)
  }

  /** Row i lies inside the first row that counts as its enclosing field of that name, if any. */
  predicate InsideNamed(tab: seq<Field>, i: nat, name: string)
    requires i < |tab|
  {
    var d := FirstNamed(tab, i, name, 0);
    d.Some? ==> Check(tab[i], tab[d.value]) == IncludedIn
  }

  predicate InsideAll(tab: seq<Field>, i: nat)
    requires i < |tab|
  {
    var names := Prefixes("", Split(tab[i].name));
    forall k :: 0 <= k < |names| ==> InsideNamed(tab, i, names[k])
  }

  /** An overlap of row i with row j is acceptable. */
  predicate OverlapAllowed(tab: seq<Field>, i: nat, j: nat)
    requires i < |tab| && j < |tab|
  {
    if Dotted(tab[i].name) then
      InsideAll(tab, i)
    else Dotted(tab[j].name)
  }

  predicate PairOk(tab: seq<Field>, i: nat, j: nat)
    requires i < |tab| && j < |tab|
  {
    i != j && tab[i].block == tab[j].block && Check(tab[i], tab[j]) != NoOverlap ==> OverlapAllowed(tab, i, j)
  }

  predicate OverlapsAllowed(tab: seq<Field>) {
    forall i, j :: 0 <= i < |tab| && 0 <= j < |tab| ==> PairOk(tab, i, j)
  }

  /** What the verifier accepts; a custom table is checked for roots only together with the common one. */
  predicate Verified(tab: seq<Field>, maxBlkLen: int, custom: bool) {
    InBounds(tab, maxBlkLen) && NamesUnique(tab) && (!custom ==> RootsPresent(tab)) && OverlapsAllowed(tab)
  }

  predicate Sensible(tab: seq<Field>) {
    forall i :: 0 <= i < |tab| ==> tab[i].count > 0 && tab[i].start >= 0
  }

  // ----- what a verified table is worth ----------------------------------------------------

  /** Undotted fields of one block share no bit. */
  lemma UndottedDisjoint(tab: seq<Field>, maxBlkLen: int, custom: bool, i: nat, j: nat)
    requires Verified(tab, maxBlkLen, custom) && Sensible(tab)
    requires i < |tab| && j < |tab| && i != j && tab[i].block == tab[j].block
    requires !Dotted(tab[i].name) && !Dotted(tab[j].name)
    ensures Disjoint(tab[i], tab[j])
  {
    hide NamesUnique;
    CheckMeaning(tab[i], tab[j]);
    assert PairOk(tab, i, j);
  }

  /** An undotted field that shares a bit with a dotted one is that one's root. */
  lemma OverlapIsRoot(tab: seq<Field>, maxBlkLen: int, i: nat, u: nat)
    requires Verified(tab, maxBlkLen, false) && Sensible(tab)
    requires i < |tab| && u < |tab| && tab[i].block == tab[u].block
    requires Dotted(tab[i].name) && !Dotted(tab[u].name) && !Disjoint(tab[i], tab[u])
    ensures tab[u].name == Root(tab[i].name)
  {
    hide Split, Prefixes, NamesUnique;
    var parts, root := Split(tab[i].name), Root(tab[i].name);
    assert Prefixes("", parts)[0] == root && Prefixes("", parts[..|parts| - 1])[0] == root;
    CheckMeaning(tab[i], tab[u]);
    assert PairOk(tab, i, u) && InsideNamed(tab, i, root) && RowRooted(tab, i);
    var d := FirstNamed(tab, i, root, 0).value;
    CheckMeaning(tab[i], tab[d]);
    if d != u {
      UndottedDisjoint(tab, maxBlkLen, false, d, u);
    }
  }

  // ----- counting bits ------------------------------------------------------------------------

  function Bits(f: Field): (s: set<int>)
    requires f.count >= 0
    ensures forall b :: b in s <==> Covers(f, b)
    ensures |s| == f.count
    decreases f.count
  {
    if f.count == 0 then {}
    else
      var rest := Bits(f.(count := f.count - 1));
      var last := f.start + f.count - 1;
      assert last !in rest;
      rest + {last}
  }

  /** The undotted fields of a block. */
  predicate Counted(f: Field, block: string) { f.block == block && !Dotted(f.name) }

  function TotalCount(tab: seq<Field>, block: string): int {
    if tab == [] then 0
    else
      var f := tab[|tab| - 1];
      TotalCount(tab[..|tab| - 1], block) + if Counted(f, block) then f.count else 0
  }

  /** All bits of the undotted fields of a block. */
  function Used(tab: seq<Field>, block: string): set<int>
    requires Sensible(tab)
  {
    if tab == [] then {}
    else
      var f := tab[|tab| - 1];
      Used(tab[..|tab| - 1], block) + if Counted(f, block) then Bits(f) else {}
  }

  /** A used bit belongs to some undotted field of the block. */
  lemma {:induction false} UsedBy(tab: seq<Field>, block: string, b: int) returns (i: nat)
    requires Sensible(tab) && b in Used(tab, block)
    ensures i < |tab| && Counted(tab[i], block) && Covers(tab[i], b)
  {
    var last := |tab| - 1;
    if Counted(tab[last], block) && b in Bits(tab[last]) {
      i := last;
    } else {
      i := UsedBy(tab[..last], block, b);
    }
  }

  /** Fields with no bit in common use as many bits as their counts add up to. */
  lemma {:induction false} UsedSize(tab: seq<Field>, block: string)
    requires Sensible(tab)
    requires forall i, j :: 0 <= i < j < |tab| && Counted(tab[i], block) && Counted(tab[j], block) ==>
                              Disjoint(tab[i], tab[j])
    ensures |Used(tab, block)| == TotalCount(tab, block)
  {
    if tab != [] {
      var last := |tab| - 1;
      var f := tab[last];
      var front := tab[..last];
      UsedSize(front, block);
      if Counted(f, block) {
        forall b | b in Used(front, block) ensures b !in Bits(f) {
          var i := UsedBy(front, block, b);
          assert Disjoint(tab[i], tab[last]);
        }
        assert Used(front, block) !! Bits(f);
      }
    }
  }

  lemma {:induction false} SubsetSize(a: set<int>, max: int)
    requires forall b :: b in a ==> 0 <= b < max
    ensures |a| <= if max < 0 then 0 else max
    decreases if max < 0 then 0 else max
  {
    if max <= 0 {
      assert forall b :: b !in a;
      assert a == {};
    } else {
      SubsetSize(a - {max - 1}, max - 1);
    }
  }

  /** The undotted fields of a block fit into it together. */
  lemma FitsBlock(tab: seq<Field>, maxBlkLen: int, custom: bool, block: string)
    requires Verified(tab, maxBlkLen, custom) && Sensible(tab)
    ensures TotalCount(tab, block) <= if MaxBits(block, maxBlkLen) < 0 then 0 else MaxBits(block, maxBlkLen)
  {
    hide TotalCount, Used, NamesUnique;
    forall i, j | 0 <= i < j < |tab| && Counted(tab[i], block) && Counted(tab[j], block)
      ensures Disjoint(tab[i], tab[j])
    {
      UndottedDisjoint(tab, maxBlkLen, custom, i, j);
    }
    UsedSize(tab, block);
    forall b | b in Used(tab, block) ensures 0 <= b < MaxBits(block, maxBlkLen) {
      var i := UsedBy(tab, block, b);
    }
    SubsetSize(Used(tab, block), MaxBits(block, maxBlkLen));
  }

  /** Negative start bits, which the input format admits, defeat the bound. */
  lemma NegativeStartExample()
    ensures var tab := [Field("A", "", "EFUSE_BLK0", -300, 300), Field("B", "", "EFUSE_BLK0", 0, 256)];
            Verified(tab, 128, false) && TotalCount(tab, "EFUSE_BLK0") > 256
  {
    hide NamesUnique;
    var tab := [Field("A", "", "EFUSE_BLK0", -300, 300), Field("B", "", "EFUSE_BLK0", 0, 256)];
    assert tab[..1] == [tab[0]] && tab[..1][..0] == [];
    assert !Dotted("A") && !Dotted("B");
    assert NamesUnique(tab) by {
      UndottedUnique(tab);
    }
    assert TotalCount(tab[..1], "EFUSE_BLK0") == 300;
  }

  lemma UndottedUnique(tab: seq<Field>)
    requires forall i :: 0 <= i < |tab| ==> tab[i].group == "" && !Dotted(tab[i].name)
    requires forall i, j :: 0 <= i < j < |tab| ==> tab[i].name != tab[j].name
    ensures NamesUnique(tab)
  {
    hide NamesUnique, Underscored, AtMostOnce;
    UniqueMeaning(tab);
    forall i | 0 <= i < |tab| ensures AtMostOnce(tab, FullName(tab[i])) {
      assert FullName(tab[i]) == tab[i].name;
      AloneIffOnce(tab, i);
    }
  }

  lemma {:induction false} SplitNone(name: string)
    requires !Dotted(name)
    ensures Split(name) == [name]
  {
    if name != [] {
      SplitNone(name[1..]);
      assert [name[0]] + name[1..] == name;
      assert [name] + [name[1..]][1..] == [name];
    }
  }

  lemma {:induction false} SplitOne(a: string, b: string)
    requires !Dotted(a) && !Dotted(b)
    ensures Split(a + [DOT] + b) == [a, b]
  {
    var s := a + [DOT] + b;
    if a == [] {
      SplitNone(b);
      assert s[1..] == b;
    } else {
      SplitOne(a[1..], b);
      assert s[1..] == a[1..] + [DOT] + b;
      assert [a[0]] + a[1..] == a;
      assert [a] + [a[1..], b][1..] == [a, b];
    }
  }

  lemma RootedByOne(tab: seq<Field>, i: nat, d: nat, a: string, b: string)
    requires i < |tab| && d < |tab| && !Dotted(a) && !Dotted(b)
    requires tab[i].name == a + [DOT] + b && Named(tab, i, d, a)
    ensures RowRooted(tab, i)
  {
    hide Split;
    SplitOne(a, b);
    assert [a, b][..1] == [a];
    assert Prefixes("", [a]) == [a];
  }

  /** Four fields, two of them dotted. */
  function ClashTable(): seq<Field> {
    [Field("A", "", "EFUSE_BLK0", 0, 1), Field("A.B_C", "", "EFUSE_BLK0", 1, 1),
     Field("A_B", "", "EFUSE_BLK0", 2, 1), Field("A_B.C", "", "EFUSE_BLK0", 3, 1)]
  }

  lemma ClashRooted()
    ensures RootsPresent(ClashTable())
  {
    hide RowRooted;
    var tab := ClashTable();
    assert !Dotted("A") && !Dotted("A_B") && !Dotted("B_C") && !Dotted("C");
    assert tab[1].name == "A" + [DOT] + "B_C" && tab[3].name == "A_B" + [DOT] + "C";
    RootedByOne(tab, 1, 0, "A", "B_C");
    RootedByOne(tab, 3, 2, "A_B", "C");
  }

  lemma ClashUnique()
    ensures NamesUnique(ClashTable())
  {
    hide NamesUnique, NameAlone, Dotted, AtMostOnce;
    var tab := ClashTable();
    UniqueMeaning(tab);
    assert "A.B_C"[1] != "A_B.C"[1];
    HasDot("A.B_C", 1);
    HasDot("A_B.C", 3);
    forall i | 0 <= i < |tab| ensures AtMostOnce(tab, FullName(tab[i])) {
      assert FullName(tab[i]) == tab[i].name;
      AloneIffOnce(tab, i);
      AloneByShape(tab, i);
    }
  }

  lemma HasDot(name: string, k: nat)
    requires k < |name| && name[k] == DOT
    ensures Dotted(name)
  {
  }

  /** A C name has no dots and is as long as the name it stands for. */
  lemma AloneByShape(tab: seq<Field>, i: nat)
    requires i < |tab| && forall j :: 0 <= j < |tab| && j != i ==> tab[j].name != tab[i].name
    requires Dotted(tab[i].name) || forall j :: 0 <= j < |tab| && Dotted(tab[j].name) ==> |tab[j].name| != |tab[i].name|
    ensures NameAlone(tab, i)
  {
  }

  lemma ClashAsC()
    ensures Underscored("A.B_C") == "A_B_C" == Underscored("A_B.C")
  {
    assert Underscored("A.B_C") == "A_B_C";
    assert Underscored("A_B.C") == "A_B_C";
  }

  lemma NobodyElse(tab: seq<Field>, name: string)
    requires |tab| == 1
    ensures !HasNamed(tab, 0, name)
  {
  }

  /** A custom table may leave its enclosing fields to the common one; on its own it must not. */
  lemma CustomExample()
    ensures var tab := [Field("A.B", "", "EFUSE_BLK3", 0, 1)];
            Verified(tab, 128, true) && !Verified(tab, 128, false)
  {
    hide NamesUnique, Strip, RootsPresent, OverlapAllowed, AtMostOnce, NameAlone, HasNamed;
    var tab := [Field("A.B", "", "EFUSE_BLK3", 0, 1)];
    UniqueMeaning(tab);
    AloneIffOnce(tab, 0);
    HasDot("A.B", 1);
    AloneByShape(tab, 0);
    assert FullName(tab[0]) == tab[0].name;
    RootsMeaning(tab);
    assert tab[0].name[1] == DOT;
    NobodyElse(tab, Strip("A.B"[..1]));
  }

  /** The first block has 256 bits, the others what the chip says. */
  lemma BlockSizesExample()
    ensures InBounds([Field("A", "", "EFUSE_BLK0", 0, 256)], 128)
    ensures !InBounds([Field("A", "", "EFUSE_BLK0", 1, 256)], 128)
    ensures InBounds([Field("A", "", "EFUSE_BLK3", 0, 128)], 128)
    ensures !InBounds([Field("A", "", "EFUSE_BLK3", 1, 128)], 128)
  {
    var a, b := [Field("A", "", "EFUSE_BLK0", 1, 256)], [Field("A", "", "EFUSE_BLK3", 1, 128)];
    assert a[0].start + a[0].count > MaxBits(a[0].block, 128);
    assert b[0].start + b[0].count > MaxBits(b[0].block, 128);
  }

  /** Two dotted fields can clash: this table passes, and two of its fields are A_B_C in the C code. */
  lemma UnflaggedClash()
    ensures var tab := ClashTable(); Verified(tab, 256, false) && Clash(tab[1], tab[3])
  {
    hide NamesUnique, RootsPresent, OverlapAllowed, Underscored;
    ClashRooted();
    ClashUnique();
    ClashAsC();
    assert "A.B_C"[1] == DOT && "A_B.C"[1] == '_';
  }

  /** A dotted field, and a field of two parts. */
  function GroupedTable(): seq<Field> {
    [Field("A", "", "EFUSE_BLK0", 0, 1), Field("A.B", "", "EFUSE_BLK0", 1, 1),
     Field("A_B", "0", "EFUSE_BLK0", 2, 1), Field("A_B", "1", "EFUSE_BLK0", 3, 1)]
  }

  lemma NobodyThatLong(tab: seq<Field>, x: string)
    requires forall j :: 0 <= j < |tab| ==> |tab[j].name| != |x|
    ensures AtMostOnce(tab, x)
  {
  }

  lemma GroupedUnique()
    ensures NamesUnique(GroupedTable())
  {
    hide NamesUnique, NameAlone, Dotted, AtMostOnce;
    var tab := GroupedTable();
    UniqueMeaning(tab);
    assert "A.B"[1] != "A_B"[1];
    HasDot("A.B", 1);
    forall i | 0 <= i < |tab| ensures AtMostOnce(tab, FullName(tab[i])) {
      if i < 2 {
        assert FullName(tab[i]) == tab[i].name;
        AloneIffOnce(tab, i);
        AloneByShape(tab, i);
      } else {
        assert |FullName(tab[i])| == 4;
        NobodyThatLong(tab, FullName(tab[i]));
      }
    }
  }

  lemma GroupedAsC()
    ensures Underscored("A.B") == "A_B" == Underscored("A_B")
  {
    assert Underscored("A.B") == "A_B";
    assert Underscored("A_B") == "A_B";
  }

  /** So can a dotted field and one that is grouped but has no dot. */
  lemma GroupedClash()
    ensures var tab := GroupedTable(); Verified(tab, 256, false) && Clash(tab[1], tab[2]) && !Dotted(tab[2].name)
  {
    hide NamesUnique, RowRooted, OverlapAllowed, Underscored;
    var tab := GroupedTable();
    GroupedUnique();
    GroupedAsC();
    HasDot("A.B", 1);
    assert tab[1].name == "A" + [DOT] + "B" && !Dotted("A") && !Dotted("B") && !Dotted("A_B");
    RootedByOne(tab, 1, 0, "A", "B");
    assert "A.B"[1] != "A_B"[1];
  }

  /** And two fields of two parts each can have one name. */
  lemma TwinsPass()
    ensures var tab := [Field("X", "0", "EFUSE_BLK0", 0, 1), Field("X", "1", "EFUSE_BLK0", 1, 1),
                        Field("X", "0", "EFUSE_BLK0", 2, 1), Field("X", "1", "EFUSE_BLK0", 3, 1)];
            Verified(tab, 256, false) && Clash(tab[0], tab[2])
  {
    hide NamesUnique, AtMostOnce, RowRooted, OverlapAllowed;
    var tab := [Field("X", "0", "EFUSE_BLK0", 0, 1), Field("X", "1", "EFUSE_BLK0", 1, 1),
                Field("X", "0", "EFUSE_BLK0", 2, 1), Field("X", "1", "EFUSE_BLK0", 3, 1)];
    UniqueMeaning(tab);
    forall i | 0 <= i < |tab| ensures AtMostOnce(tab, FullName(tab[i])) {
      assert |FullName(tab[i])| == 2 && tab[i].name == "X";
      NobodyThatLong(tab, FullName(tab[i]));
    }
    assert !Dotted("X");
  }

  // ----- the verifier's loops ------------------------------------------------------------------

  /** The name built up so far stands for the enclosing fields still to come. */
  lemma PrefixAdvance(names: seq<string>, parts: seq<string>, name: string, k: nat)
    requires k < |parts| == |names| && names[k..] == Prefixes(name, parts[k..])
    ensures names[k] == NextName(name, parts[k])
    ensures names[k + 1..] == Prefixes(NextName(name, parts[k]), parts[k + 1..])
  {
    assert parts[k..][1..] == parts[k + 1..] && names[k..][1..] == names[k + 1..];
    assert names[k] == names[k..][0];
  }

  /** Goes through the rows for one of the given name. */
  method FindNamed(tab: seq<Field>, i: nat, name: string) returns (r: Option<nat>)
    requires i < |tab|
    ensures r == FirstNamed(tab, i, name, 0)
  {
    for d := 0 to |tab|
      invariant FirstNamed(tab, i, name, 0) == FirstNamed(tab, i, name, d)
    {
      if i != d && tab[i].block == tab[d].block && name == tab[d].name {
        return Some(d);
      }
    }
    return None;
  }

  /** The enclosing names of one row, built up part by part. */
  method CheckRowRooted(tab: seq<Field>, i: nat) returns (ok: bool)
    requires i < |tab|
    ensures ok <==> RowRooted(tab, i)
  {
    hide FirstNamed, Prefixes, Split, NextName;
    var parts := Split(tab[i].name);
    parts := parts[..|parts| - 1];
    ghost var names := Prefixes("", parts);
    var name := "";
    assert names[0..] == names && parts[0..] == parts;
    for k := 0 to |parts|
      invariant names[k..] == Prefixes(name, parts[k..])
      invariant forall l :: 0 <= l < k ==> FirstNamed(tab, i, names[l], 0).Some?
    {
      PrefixAdvance(names, parts, name, k);
      name := NextName(name, parts[k]);
      var d := FindNamed(tab, i, name);
      if d.None? {
        return false;
      }
    }
    return true;
  }

  method CheckStructFieldName(tab: seq<Field>) returns (ok: bool)
    ensures ok <==> RootsPresent(tab)
  {
    hide RowRooted;
    for i := 0 to |tab|
      invariant forall j :: 0 <= j < i && Dotted(tab[j].name) ==> RowRooted(tab, j)
    {
      if DOT in tab[i].name {
        var rooted := CheckRowRooted(tab, i);
        if !rooted {
          return false;
        }
      }
    }
    return true;
  }

  /** An overlapping dotted row against its enclosing rows. */
  method CheckInside(tab: seq<Field>, i: nat) returns (ok: bool)
    requires i < |tab|
    ensures ok <==> InsideAll(tab, i)
  {
    hide FirstNamed, Prefixes, Split, NextName;
    var parts := Split(tab[i].name);
    ghost var names := Prefixes("", parts);
    var name := "";
    assert names[0..] == names && parts[0..] == parts;
    for k := 0 to |parts|
      invariant names[k..] == Prefixes(name, parts[k..])
      invariant forall l :: 0 <= l < k ==> InsideNamed(tab, i, names[l])
    {
      PrefixAdvance(names, parts, name, k);
      name := NextName(name, parts[k]);
      var d := FindNamed(tab, i, name);
      if d.Some? && Check(tab[i], tab[d.value]) != IncludedIn {
        assert !InsideNamed(tab, i, names[k]);
        return false;
      }
    }
    return true;
  }

  /** The overlap check of one row against all others. */
  method CheckRow(tab: seq<Field>, i: nat) returns (ok: bool)
    requires i < |tab|
    ensures ok <==> forall j :: 0 <= j < |tab| ==> PairOk(tab, i, j)
  {
    hide InsideAll, Check;
    for j := 0 to |tab|
      invariant forall l :: 0 <= l < j ==> PairOk(tab, i, l)
    {
      if i != j && tab[i].block == tab[j].block && Check(tab[i], tab[j]) != NoOverlap {
        if DOT in tab[i].name {
          var inside := CheckInside(tab, i);
          if !inside {
            assert !PairOk(tab, i, j);
            return false;
          }
        } else if DOT !in tab[j].name {
          assert !PairOk(tab, i, j);
          return false;
        }
      }
      assert PairOk(tab, i, j);
    }
    return true;
  }

  /** The whole verifier. */
  method Verify(tab: seq<Field>, maxBlkLen: int, custom: bool) returns (ok: bool)
    ensures ok <==> Verified(tab, maxBlkLen, custom)
  {
    hide PairOk, RootsPresent, NamesUnique;
    for i := 0 to |tab|
      invariant forall j :: 0 <= j < i ==> tab[j].start + tab[j].count <= MaxBits(tab[j].block, maxBlkLen)
    {
      if tab[i].start + tab[i].count > MaxBits(tab[i].block, maxBlkLen) {
        return false;
      }
    }
    if !NamesUnique(tab) {
      return false;
    }
    if !custom {
      var rooted := CheckStructFieldName(tab);
      if !rooted {
        return false;
      }
    }
    for i := 0 to |tab|
      invariant forall k, j :: 0 <= k < i && 0 <= j < |tab| ==> PairOk(tab, k, j)
    {
      var row := CheckRow(tab, i);
      if !row {
        return false;
      }
    }
    return true;
  }

  /** Row i lies bit by bit inside every row that counts as one of its enclosing fields. */
  ghost predicate Nested(tab: seq<Field>, i: nat)
    requires i < |tab|
  {
    forall x :: FirstNamed(tab, i, x, 0).Some? && (BeforeDot(tab[i].name, 0, x) || x == Strip(tab[i].name)) ==>
                  Inside(tab[i], tab[FirstNamed(tab, i, x, 0).value])
  }

  ghost predicate Inside(p: Field, n: Field) { forall b :: Covers(p, b) ==> Covers(n, b) }

  /** Rows of one block that share a bit. */
  ghost predicate Share(p: Field, n: Field) { p.block == n.block && exists b :: Covers(p, b) && Covers(n, b) }

  lemma InsideIff(p: Field, n: Field)
    requires p.count > 0 && n.count > 0
    ensures Check(p, n) == IncludedIn <==> Inside(p, n)
    ensures p.block == n.block ==> (Check(p, n) != NoOverlap <==> Share(p, n))
  {
    CheckMeaning(p, n);
  }

  lemma NestedIff(tab: seq<Field>, i: nat)
    requires i < |tab| && Sensible(tab)
    ensures InsideAll(tab, i) <==> Nested(tab, i)
  {
    hide Check, Inside, Prefixes, Split, FirstNamed, Strip;
    var name := tab[i].name;
    var names := Prefixes("", Split(name));
    assert "" + name == name;
    NothingRead();
    forall x ensures x in names <==> BeforeDot(name, 0, x) || x == Strip(name) {
      PrefixesAre("", "", name, x);
    }
    forall x
      ensures InsideNamed(tab, i, x) <==>
              (FirstNamed(tab, i, x, 0).Some? ==> Inside(tab[i], tab[FirstNamed(tab, i, x, 0).value]))
    {
      var d := FirstNamed(tab, i, x, 0);
      if d.Some? {
        assert d.value < |tab|;
        InsideIff(tab[i], tab[d.value]);
      }
    }
    assert InsideAll(tab, i) <==> forall x :: x in names ==> InsideNamed(tab, i, x);
  }

  /**
   * What the overlap check means in bits, for fields of at least one bit: undotted fields share
   * none, and a dotted field that shares one with any other lies inside all its enclosing fields.
   */
  lemma OverlapsMeaning(tab: seq<Field>)
    requires Sensible(tab)
    ensures OverlapsAllowed(tab) <==>
            forall i, j :: 0 <= i < |tab| && 0 <= j < |tab| && i != j && Share(tab[i], tab[j]) ==>
                             if Dotted(tab[i].name) then Nested(tab, i) else Dotted(tab[j].name)
  {
    hide Check, Share, InsideAll, Nested;
    forall i, j | 0 <= i < |tab| && 0 <= j < |tab|
      ensures PairOk(tab, i, j) <==>
              (i != j && Share(tab[i], tab[j]) ==> if Dotted(tab[i].name) then Nested(tab, i) else Dotted(tab[j].name))
    {
      PairMeaning(tab, i, j);
    }
  }

  lemma PairMeaning(tab: seq<Field>, i: nat, j: nat)
    requires Sensible(tab) && i < |tab| && j < |tab|
    ensures PairOk(tab, i, j) <==>
            (i != j && Share(tab[i], tab[j]) ==> if Dotted(tab[i].name) then Nested(tab, i) else Dotted(tab[j].name))
  {
    hide Check, InsideAll, Nested;
    NestedIff(tab, i);
    InsideIff(tab[i], tab[j]);
  }

  // ----- missing start bits --------------------------------------------------------------------

  /** A row of the input, whose start bit may be left open. */
  datatype Row = Row(name: string, block: string, start: Option<int>, count: int)

  /** A row without a start bit follows the row above if that is of the same block. */
  function StartOf(rows: seq<Row>, i: nat): int
    requires i < |rows|
  {
    if rows[i].start.Some? then rows[i].start.value
    else if i > 0 && rows[i - 1].block == rows[i].block then StartOf(rows, i - 1) + rows[i - 1].count
    else 0
  }

  method FillBitStart(rows: array<Row>)
    modifies rows
    ensures forall i :: 0 <= i < rows.Length ==>
                          rows[i] == old(rows[i]).(start := Some(StartOf(old(rows[..]), i)))
  {
    var lastBlock: Option<string> := None;
    var lastEnd := 0;
    ghost var was := rows[..];
    for i := 0 to rows.Length
      invariant forall j :: 0 <= j < i ==> rows[j] == was[j].(start := Some(StartOf(was, j)))
      invariant forall j :: i <= j < rows.Length ==> rows[j] == was[j]
      invariant i == 0 ==> lastBlock == None
      invariant i > 0 ==> lastBlock == Some(was[i - 1].block) && lastEnd == StartOf(was, i - 1) + was[i - 1].count
    {
      if lastBlock != Some(rows[i].block) {
        lastEnd := 0;
      }
      if rows[i].start.None? {
        rows[i] := rows[i].(start := Some(lastEnd));
      }
      lastEnd := rows[i].start.value + rows[i].count;
      lastBlock := Some(rows[i].block);
    }
  }

  function CountsFrom(rows: seq<Row>, i: nat, j: nat): int
    requires i <= j <= |rows|
  {
    if i == j then 0 else CountsFrom(rows, i, j - 1) + rows[j - 1].count
  }

  /** Rows of a block that follow one another with their start bits left open are packed without gap or overlap. */
  lemma {:induction false} FilledPacked(rows: seq<Row>, i: nat, j: nat)
    requires i <= j < |rows|
    requires forall k :: i <= k <= j ==> rows[k].block == rows[i].block
    requires forall k :: i < k <= j ==> rows[k].start.None?
    ensures StartOf(rows, j) == StartOf(rows, i) + CountsFrom(rows, i, j)
    ensures rows[i].start.None? && (i > 0 ==> rows[i - 1].block != rows[i].block) ==> StartOf(rows, i) == 0
  {
    if i < j {
      FilledPacked(rows, i, j - 1);
    }
  }
}
