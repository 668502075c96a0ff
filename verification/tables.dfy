/**
 * The name -> address maps derived once at load time: `got` and `plt` from the PLT's
 * relocation section, and `symbols` from the PLT seed plus every symbol table.
 */
module Tables {
  import opened Wrappers
  import opened Scan

  /** A symbol-table entry: its resolved name and `st_value`. */
  datatype Symbol = Symbol(name: string, value: int)

  /** A relocation entry: `r_offset` and the symbol index `r_info_sym`. */
  datatype Relocation = Relocation(offset: int, sym: nat)

  /** What a section holds, as far as the maps are concerned. */
  datatype Contents =
    | Other
    | SymbolTable(symbols: seq<Symbol>)
    | RelocationTable(relocations: seq<Relocation>)

  /** A decoded section header (`sh_addr`, `sh_addralign`, `sh_info`, `sh_link`) and its contents. */
  datatype Section = Section(name: string, addr: int, addralign: nat, info: nat, link: nat, contents: Contents)

  /** The exceptions map construction and loading can raise. */
  datatype LoadError =
    | NoPltSection            // `sections.index(None)` when there is no `.plt`
    | NoPltRelocations        // `next(...)` finds no section whose `sh_info` is the PLT's index
    | LinkOutOfRange          // `sections[sh_link]` past the section table
    | NotRelocationSection    // `iter_relocations` on a section that holds no relocations
    | NotSymbolTable          // `get_symbol` on a linked section that is no symbol table
    | SymbolIndexOutOfRange   // a relocation naming a symbol past the end of its table
    | NoLoadedSegment         // `min` of an empty sequence: every `p_vaddr` is zero

  datatype GotPlt = GotPlt(got: map<string, int>, plt: map<string, int>)

  /** The PLT trampoline address the source assigns to symbol index `sym`. */
  function PltSlot(plt: Section, sym: nat): int {
    plt.addr + sym * plt.addralign
  }

  predicate IndicesInRange(relocs: seq<Relocation>, symtab: seq<Symbol>) {
    forall i :: 0 <= i < |relocs| ==> relocs[i].sym < |symtab|
  }

  function NameOf(symtab: seq<Symbol>, r: Relocation): string
    requires r.sym < |symtab|
  {
    symtab[r.sym].name
  }

  /** The symbol names the relocations refer to. */
  function RelocNames(relocs: seq<Relocation>, symtab: seq<Symbol>): set<string>
    requires IndicesInRange(relocs, symtab)
  {
    set i | 0 <= i < |relocs| :: NameOf(symtab, relocs[i])
  }

  /** Relocation `i` is the last one, in table order, whose symbol has its name. */
  predicate LastOfName(relocs: seq<Relocation>, symtab: seq<Symbol>, i: int)
    requires IndicesInRange(relocs, symtab)
  {
    && 0 <= i < |relocs|
    && forall j :: i < j < |relocs| ==> NameOf(symtab, relocs[j]) != NameOf(symtab, relocs[i])
  }

  /** What the relocation loop promises once it has run over `relocs`. */
  ghost predicate FilledFrom(t: GotPlt, relocs: seq<Relocation>, symtab: seq<Symbol>, plt: Section)
    requires IndicesInRange(relocs, symtab)
  {
    && t.got.Keys == RelocNames(relocs, symtab) && t.plt.Keys == RelocNames(relocs, symtab)
    && forall i :: LastOfName(relocs, symtab, i) ==>
         && t.got[NameOf(symtab, relocs[i])] == relocs[i].offset
         && t.plt[NameOf(symtab, relocs[i])] == PltSlot(plt, relocs[i].sym)
  }

  /**
   * The relocation loop: each relocation sets `got[name]` to its `r_offset` and `plt[name]`
   * to the slot of its symbol index; a later relocation of the same name overwrites.
   */
  function FillGotPlt(relocs: seq<Relocation>, symtab: seq<Symbol>, plt: Section): (t: GotPlt)
    requires IndicesInRange(relocs, symtab)
    ensures t.got.Keys == RelocNames(relocs, symtab) && t.plt.Keys == RelocNames(relocs, symtab)
    ensures forall i :: LastOfName(relocs, symtab, i) ==>
              && t.got[NameOf(symtab, relocs[i])] == relocs[i].offset
              && t.plt[NameOf(symtab, relocs[i])] == PltSlot(plt, relocs[i].sym)
  {
    if |relocs| == 0 then GotPlt(map[], map[])
    else
      var n := |relocs| - 1;
      var prev := FillGotPlt(relocs[..n], symtab, plt);
      var name := NameOf(symtab, relocs[n]);
      var t := GotPlt(prev.got[name := relocs[n].offset], prev.plt[name := PltSlot(plt, relocs[n].sym)]);
      FillStep(prev, t, relocs, symtab, plt);
      t
  }

  /** One more relocation keeps the loop's promise. */
  lemma FillStep(prev: GotPlt, t: GotPlt, relocs: seq<Relocation>, symtab: seq<Symbol>, plt: Section)
    requires |relocs| > 0 && IndicesInRange(relocs, symtab)
    requires FilledFrom(prev, relocs[..|relocs| - 1], symtab, plt)
    requires var n := |relocs| - 1; var name := NameOf(symtab, relocs[n]);
             t == GotPlt(prev.got[name := relocs[n].offset], prev.plt[name := PltSlot(plt, relocs[n].sym)])
    ensures FilledFrom(t, relocs, symtab, plt)
  {
    FillKeys(prev, t, relocs, symtab, plt);
    forall i | LastOfName(relocs, symtab, i)
      ensures && t.got[NameOf(symtab, relocs[i])] == relocs[i].offset
              && t.plt[NameOf(symtab, relocs[i])] == PltSlot(plt, relocs[i].sym)
    {
      FillStepAt(prev, t, relocs, symtab, plt, i);
    }
  }

  /** After one more relocation the key sets are the names seen so far. */
  lemma FillKeys(prev: GotPlt, t: GotPlt, relocs: seq<Relocation>, symtab: seq<Symbol>, plt: Section)
    requires |relocs| > 0 && IndicesInRange(relocs, symtab)
    requires prev.got.Keys == RelocNames(relocs[..|relocs| - 1], symtab)
    requires prev.plt.Keys == RelocNames(relocs[..|relocs| - 1], symtab)
    requires var n := |relocs| - 1; var name := NameOf(symtab, relocs[n]);
             t == GotPlt(prev.got[name := relocs[n].offset], prev.plt[name := PltSlot(plt, relocs[n].sym)])
    ensures t.got.Keys == RelocNames(relocs, symtab) && t.plt.Keys == RelocNames(relocs, symtab)
  {
    var name := NameOf(symtab, relocs[|relocs| - 1]);
    RelocNamesSnoc(relocs, symtab);
    assert t.got.Keys == prev.got.Keys + {name} && t.plt.Keys == prev.plt.Keys + {name};
  }

  /** After one more relocation, the last relocation of each name still sets that name's entries. */
  lemma FillStepAt(prev: GotPlt, t: GotPlt, relocs: seq<Relocation>, symtab: seq<Symbol>, plt: Section, i: int)
    requires |relocs| > 0 && IndicesInRange(relocs, symtab)
    requires FilledFrom(prev, relocs[..|relocs| - 1], symtab, plt)
    requires var n := |relocs| - 1; var name := NameOf(symtab, relocs[n]);
             t == GotPlt(prev.got[name := relocs[n].offset], prev.plt[name := PltSlot(plt, relocs[n].sym)])
    requires LastOfName(relocs, symtab, i)
    ensures NameOf(symtab, relocs[i]) in t.got && NameOf(symtab, relocs[i]) in t.plt
    ensures t.got[NameOf(symtab, relocs[i])] == relocs[i].offset
    ensures t.plt[NameOf(symtab, relocs[i])] == PltSlot(plt, relocs[i].sym)
  {
    var n := |relocs| - 1;
    if i < n {
      var init := relocs[..n];
      LastOfNameInit(relocs, symtab, i);
      var k := NameOf(symtab, relocs[i]);
      assert k == NameOf(symtab, init[i]) && k != NameOf(symtab, relocs[n]);
      assert prev.got[k] == init[i].offset && prev.plt[k] == PltSlot(plt, init[i].sym);
    }
  }

  lemma RelocNamesSnoc(relocs: seq<Relocation>, symtab: seq<Symbol>)
    requires |relocs| > 0 && IndicesInRange(relocs, symtab)
    ensures RelocNames(relocs, symtab)
            == RelocNames(relocs[..|relocs| - 1], symtab) + {NameOf(symtab, relocs[|relocs| - 1])}
  {
    var n := |relocs| - 1;
    var init := relocs[..n];
    forall k | k in RelocNames(relocs, symtab) && k != NameOf(symtab, relocs[n])
      ensures k in RelocNames(init, symtab)
    {
      var i :| 0 <= i < |relocs| && NameOf(symtab, relocs[i]) == k;
      assert init[i] == relocs[i];
    }
    forall k | k in RelocNames(init, symtab)
      ensures k in RelocNames(relocs, symtab)
    {
      var i :| 0 <= i < |init| && NameOf(symtab, init[i]) == k;
      assert init[i] == relocs[i];
    }
  }

  lemma LastOfNameInit(relocs: seq<Relocation>, symtab: seq<Symbol>, i: int)
    requires |relocs| > 0 && IndicesInRange(relocs, symtab)
    requires LastOfName(relocs, symtab, i) && i < |relocs| - 1
    ensures IndicesInRange(relocs[..|relocs| - 1], symtab)
    ensures LastOfName(relocs[..|relocs| - 1], symtab, i)
    ensures relocs[..|relocs| - 1][i] == relocs[i]
    ensures NameOf(symtab, relocs[i]) != NameOf(symtab, relocs[|relocs| - 1])
  {
  }

  /** `p` is what `sections.index(plt)` gives: the index of the first section named `.plt`. */
  predicate IsPltIndex(sections: seq<Section>, p: int) {
    && 0 <= p < |sections| && sections[p].name == ".plt"
    && forall j :: 0 <= j < p ==> sections[j].name != ".plt"
  }

  /** `q` is what `next(...)` finds for the PLT index `p`: the first section whose `sh_info` is `p`. */
  predicate IsPltRelIndex(sections: seq<Section>, p: int, q: int) {
    && 0 <= q < |sections| && sections[q].info == p
    && forall j :: 0 <= j < q ==> sections[j].info != p
  }

  /** The two scans of `_populate_got_plt` end at the PLT `p` and its relocation section `q`. */
  predicate FindsPltRel(sections: seq<Section>, p: int, q: int) {
    IsPltIndex(sections, p) && IsPltRelIndex(sections, p, q)
  }

  /** The relocation section `q` resolves: its link is in range and it holds relocations. */
  predicate RelocsLinked(sections: seq<Section>, q: int)
    requires 0 <= q < |sections|
  {
    sections[q].link < |sections| && sections[q].contents.RelocationTable?
  }

  /** Every relocation of the resolving section `q` names an entry of its linked symbol table. */
  predicate RelocsResolve(sections: seq<Section>, q: int)
    requires 0 <= q < |sections| && RelocsLinked(sections, q)
  {
    var relocs := sections[q].contents.relocations;
    var linked := sections[sections[q].link].contents;
    |relocs| == 0 || (linked.SymbolTable? && IndicesInRange(relocs, linked.symbols))
  }

  lemma PltIndexUnique(sections: seq<Section>, p: int)
    requires IsPltIndex(sections, p)
    ensures forall p' :: IsPltIndex(sections, p') ==> p' == p
  {
  }

  lemma PltRelIndexUnique(sections: seq<Section>, p: int, q: int)
    requires FindsPltRel(sections, p, q)
    ensures forall p', q' :: FindsPltRel(sections, p', q') ==> p' == p && q' == q
  {
    PltIndexUnique(sections, p);
  }

  /**
   * `_populate_got_plt`: find the first `.plt`, the first section whose `sh_info` is its
   * index, that section's linked symbol table, then run the relocation loop.
   */
  function PopulateGotPlt(sections: seq<Section>): (r: Result<GotPlt, LoadError>)
    ensures r == Failure(NoPltSection) <==> forall i :: 0 <= i < |sections| ==> sections[i].name != ".plt"
    ensures r == Failure(NoPltRelocations) <==>
              exists p :: IsPltIndex(sections, p) && forall j :: 0 <= j < |sections| ==> sections[j].info != p
    ensures r == Failure(LinkOutOfRange) <==>
              exists p, q :: FindsPltRel(sections, p, q) && sections[q].link >= |sections|
    ensures r == Failure(NotRelocationSection) <==>
              exists p, q :: FindsPltRel(sections, p, q) && sections[q].link < |sections|
                             && !sections[q].contents.RelocationTable?
    ensures r == Failure(NotSymbolTable) <==>
              exists p, q :: FindsPltRel(sections, p, q) && RelocsLinked(sections, q)
                             && |sections[q].contents.relocations| > 0
                             && !sections[sections[q].link].contents.SymbolTable?
    ensures r == Failure(SymbolIndexOutOfRange) <==>
              exists p, q :: FindsPltRel(sections, p, q) && RelocsLinked(sections, q)
                             && sections[sections[q].link].contents.SymbolTable?
                             && !RelocsResolve(sections, q)
    ensures r.Success? <==>
              exists p, q :: FindsPltRel(sections, p, q) && RelocsLinked(sections, q) && RelocsResolve(sections, q)
    ensures r != Failure(NoLoadedSegment)
    ensures r.Success? ==>
              exists p, q :: FindsPltRel(sections, p, q) && RelocsLinked(sections, q)
                && var relocs := sections[q].contents.relocations;
                   var linked := sections[sections[q].link].contents;
                   (|relocs| == 0 ==> r.value == GotPlt(map[], map[]))
                   && (|relocs| > 0 ==>
                         && linked.SymbolTable? && IndicesInRange(relocs, linked.symbols)
                         && r.value == FillGotPlt(relocs, linked.symbols, sections[p]))
  {
    match FirstWhere(sections, (s: Section) => s.name == ".plt")
    case None => Failure(NoPltSection)
    case Some(p) =>
      PltIndexUnique(sections, p);
      match FirstWhere(sections, (s: Section) => s.info == p)
      case None =>
        assert IsPltIndex(sections, p) && forall j :: 0 <= j < |sections| ==> sections[j].info != p;
        Failure(NoPltRelocations)
      case Some(q) =>
        assert FindsPltRel(sections, p, q);
        PltRelIndexUnique(sections, p, q);
        var rel := sections[q];
        if rel.link >= |sections| then Failure(LinkOutOfRange)
        else if !rel.contents.RelocationTable? then Failure(NotRelocationSection)
        else
          var relocs := rel.contents.relocations;
          var linked := sections[rel.link].contents;
          if |relocs| == 0 then Success(GotPlt(map[], map[]))
          else if !linked.SymbolTable? then Failure(NotSymbolTable)
          else if !IndicesInRange(relocs, linked.symbols) then Failure(SymbolIndexOutOfRange)
          else Success(FillGotPlt(relocs, linked.symbols, sections[p]))
  }

  /** Every entry of every symbol table, sections in table order, entries in table order. */
  function AllSymbols(sections: seq<Section>): seq<Symbol> {
    if |sections| == 0 then [] else TableEntries(sections[0]) + AllSymbols(sections[1..])
  }

  /** An entry is listed exactly when it belongs to some symbol-table section. */
  lemma {:induction false} AllSymbolsMembers(sections: seq<Section>, e: Symbol)
    ensures e in AllSymbols(sections) <==> exists i :: 0 <= i < |sections| && sections[i].contents.SymbolTable?
                                                       && e in sections[i].contents.symbols
  {
    if |sections| > 0 {
      var rest := sections[1..];
      AllSymbolsMembers(rest, e);
      if e in AllSymbols(rest) {
        var i :| 0 <= i < |rest| && rest[i].contents.SymbolTable? && e in rest[i].contents.symbols;
        assert sections[i + 1] == rest[i];
      }
      if i :| 1 <= i < |sections| && sections[i].contents.SymbolTable? && e in sections[i].contents.symbols {
        assert rest[i - 1] == sections[i];
      }
    }
  }

  /** The entries of a symbol-table section; none for any other section. */
  function TableEntries(s: Section): seq<Symbol> {
    if s.contents.SymbolTable? then s.contents.symbols else []
  }

  /** Listing the entries of `a + b` is listing those of `a`, then those of `b`. */
  lemma {:induction false} AllSymbolsConcat(a: seq<Section>, b: seq<Section>)
    ensures AllSymbols(a + b) == AllSymbols(a) + AllSymbols(b)
  {
    if |a| == 0 {
      assert a + b == b;
    } else {
      assert (a + b)[0] == a[0] && (a + b)[1..] == a[1..] + b;
      AllSymbolsConcat(a[1..], b);
    }
  }

  /** The entries of `pre`, one section `x` and `post`, back to back. */
  lemma {:induction false} AllSymbolsAround(pre: seq<Section>, x: Section, post: seq<Section>)
    ensures AllSymbols(pre + [x] + post) == AllSymbols(pre) + TableEntries(x) + AllSymbols(post)
  {
    var one := [x];
    assert pre + one + post == pre + (one + post);
    AllSymbolsConcat(pre, one + post);
    AllSymbolsConcat(one, post);
    assert AllSymbols(one) == TableEntries(x) by {
      assert one[1..] == [];
      assert AllSymbols(one) == TableEntries(one[0]) + AllSymbols(one[1..]);
    }
  }

  /**
   * Section `i`'s entries appear in full, in table order, after every entry of the
   * sections before it and before every entry of the sections after it.
   */
  lemma {:induction false} AllSymbolsInOrder(sections: seq<Section>, i: int)
    requires 0 <= i < |sections|
    ensures AllSymbols(sections)
            == AllSymbols(sections[..i]) + TableEntries(sections[i]) + AllSymbols(sections[i + 1..])
  {
    var pre, x, post := sections[..i], sections[i], sections[i + 1..];
    AllSymbolsAround(pre, x, post);
    assert pre + [x] + post == sections;
  }

  /** Entry `i` is the last entry with a non-zero value named `k`. */
  ghost predicate LastNonZero(entries: seq<Symbol>, k: string, i: int) {
    && 0 <= i < |entries|
    && entries[i].name == k && entries[i].value != 0
    && forall j :: i < j < |entries| && entries[j].name == k ==> entries[j].value == 0
  }

  /** No entry named `k` carries a non-zero value. */
  ghost predicate NoNonZero(entries: seq<Symbol>, k: string) {
    forall j :: 0 <= j < |entries| && entries[j].name == k ==> entries[j].value == 0
  }

  /** What laying `entries` over `seed` promises. */
  ghost predicate OverlaidFrom(m: map<string, int>, seed: map<string, int>, entries: seq<Symbol>) {
    && (forall k :: k in m <==> k in seed || exists i :: 0 <= i < |entries| && entries[i].name == k && entries[i].value != 0)
    && (forall k :: k in m && NoNonZero(entries, k) ==> k in seed && m[k] == seed[k])
    && (forall k, i :: LastNonZero(entries, k, i) ==> k in m && m[k] == entries[i].value)
  }

  /**
   * Entries laid over `seed` in order: a non-zero value overwrites its name, a zero value
   * is skipped.
   */
  function Overlay(seed: map<string, int>, entries: seq<Symbol>): (m: map<string, int>)
    ensures forall k :: k in m <==> k in seed || exists i :: 0 <= i < |entries| && entries[i].name == k && entries[i].value != 0
    ensures forall k :: k in m && NoNonZero(entries, k) ==> k in seed && m[k] == seed[k]
    ensures forall k, i :: LastNonZero(entries, k, i) ==> k in m && m[k] == entries[i].value
  {
    if |entries| == 0 then seed
    else
      var last := entries[|entries| - 1];
      var prev := Overlay(seed, entries[..|entries| - 1]);
      var m := if last.value == 0 then prev else prev[last.name := last.value];
      OverlayStep(m, prev, seed, entries);
      m
  }

  /** One more entry keeps the overlay's promise. */
  lemma OverlayStep(m: map<string, int>, prev: map<string, int>, seed: map<string, int>, entries: seq<Symbol>)
    requires |entries| > 0
    requires OverlaidFrom(prev, seed, entries[..|entries| - 1])
    requires var last := entries[|entries| - 1];
             m == if last.value == 0 then prev else prev[last.name := last.value]
    ensures OverlaidFrom(m, seed, entries)
  {
    var n := |entries| - 1;
    var init := entries[..n];
    var last := entries[n];
    forall k | k in m
      ensures k in seed || exists i :: 0 <= i < |entries| && entries[i].name == k && entries[i].value != 0
    {
      if k !in seed && !(last.value != 0 && k == last.name) {
        var i :| 0 <= i < |init| && init[i].name == k && init[i].value != 0;
        assert entries[i] == init[i];
      }
    }
    forall k | k in seed || exists i :: 0 <= i < |entries| && entries[i].name == k && entries[i].value != 0
      ensures k in m
    {
      if k !in seed && !(last.value != 0 && k == last.name) {
        var i :| 0 <= i < |entries| && entries[i].name == k && entries[i].value != 0;
        assert i < n && init[i] == entries[i];
      }
    }
    forall k | k in m && NoNonZero(entries, k)
      ensures k in seed && m[k] == seed[k]
    {
      assert NoNonZero(init, k) by {
        forall j | 0 <= j < |init| && init[j].name == k
          ensures init[j].value == 0
        {
          assert entries[j] == init[j];
        }
      }
    }
    forall k, i | LastNonZero(entries, k, i)
      ensures k in m && m[k] == entries[i].value
    {
      if i < n {
        assert LastNonZero(init, k, i) by {
          forall j | i < j < |init| && init[j].name == k
            ensures init[j].value == 0
          {
            assert entries[j] == init[j];
          }
        }
      }
    }
  }

  /**
   * `_populate_symbols`: `symbols` starts as a copy of `plt`; every symbol-table entry with
   * a non-zero `st_value` then sets its name, later entries winning.
   */
  function PopulateSymbols(plt: map<string, int>, sections: seq<Section>): (m: map<string, int>)
    ensures plt.Keys <= m.Keys
    ensures forall k :: k in m && NoNonZero(AllSymbols(sections), k) ==> k in plt && m[k] == plt[k]
    ensures forall k, i :: LastNonZero(AllSymbols(sections), k, i) ==> k in m && m[k] == AllSymbols(sections)[i].value
    ensures forall k :: k in m ==> k in plt || exists e :: e in AllSymbols(sections) && e.name == k && e.value != 0
  {
    Overlay(plt, AllSymbols(sections))
  }
}
