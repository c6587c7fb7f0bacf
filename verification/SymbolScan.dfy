/** The symbol scan: candidates at every word of the code, and which of them are reported. */
module SymbolScan {
  import opened Bits
  import opened Instructions
  import opened LittleEndian
  import opened SymbolMatching
  import opened SymbolTrie
  import Sorting

  /** A section without data is an empty one. */
  datatype Section = Section(address: uint32, data: seq<byte>, isCode: bool)

  datatype Candidate = Candidate(symbol: Symbol, address: uint32, actualSize: nat)

  /** The loaded database. The digest, and the number of static bits of a symbol, are left open. */
  datatype Scanner = Scanner(db: Database, root: MatchNode, digest: seq<byte> -> seq<byte>, staticBits: Symbol -> nat)

  // ---- Keys ---------------------------------------------------------------------------------

  function Identity(s: Symbol): string {
    s.library + ['\n'] + s.name
  }

  function HexDigit(d: int): char
    requires 0 <= d < 16
  {
    if d < 10 then ('0' as int + d) as char else ('a' as int + d - 10) as char
  }

  function Hex(x: nat, digits: nat): string {
    if digits == 0 then [] else Hex(x / 16, digits - 1) + [HexDigit(x % 16)]
  }

  function KeyOf(s: Symbol): Key {
    Identity(s) + ['\n'] + s.hashText + ['\n'] + Hex(s.variantHash, 8)
  }

  /** The order of the keys in a std::map. */
  predicate KeyLess(a: Key, b: Key)
    decreases |a|
  {
    b != [] && (a == [] || a[0] < b[0] || (a[0] == b[0] && KeyLess(a[1..], b[1..])))
  }

  lemma {:induction false} KeyOrderTotal(a: Key, b: Key)
    ensures a != b ==> KeyLess(a, b) || KeyLess(b, a)
    decreases |a|
  {
    if a != [] && b != [] && a[0] == b[0] {
      assert a == [a[0]] + a[1..] && b == [b[0]] + b[1..];
      KeyOrderTotal(a[1..], b[1..]);
    }
  }

  lemma {:induction false} KeyOrderTransitive(a: Key, b: Key, c: Key)
    requires KeyLess(a, b) && KeyLess(b, c)
    ensures KeyLess(a, c)
    decreases |a|
  {
    if a != [] && a[0] == b[0] == c[0] {
      KeyOrderTransitive(a[1..], b[1..], c[1..]);
    }
  }

  lemma {:induction false} OrderBehind(p: Key, a: Key, b: Key)
    ensures KeyLess(p + a, p + b) == KeyLess(a, b)
    decreases |p|
  {
    if p == [] {
      assert p + a == a && p + b == b;
    } else {
      assert (p + a)[1..] == p[1..] + a && (p + b)[1..] == p[1..] + b;
      OrderBehind(p[1..], a, b);
    }
  }

  lemma {:induction false} OrderBefore(a: Key, b: Key, s: Key, t: Key)
    requires |a| == |b| && KeyLess(a, b)
    ensures KeyLess(a + s, b + t)
    decreases |a|
  {
    assert (a + s)[0] == a[0] && (b + t)[0] == b[0];
    if a[0] == b[0] {
      assert (a + s)[1..] == a[1..] + s && (b + t)[1..] == b[1..] + t;
      OrderBefore(a[1..], b[1..], s, t);
    }
  }

  lemma {:induction false} HexOrder(x: nat, y: nat, n: nat)
    requires x < y < Pow2(4 * n)
    ensures |Hex(x, n)| == |Hex(y, n)| == n && KeyLess(Hex(x, n), Hex(y, n))
    decreases n
  {
    HexLength(x, n);
    HexLength(y, n);
    if n > 0 {
      PowAdd(4, 4 * (n - 1));
      assert Pow2(4) == 16;
      if x / 16 == y / 16 {
        OrderBehind(Hex(x / 16, n - 1), [HexDigit(x % 16)], [HexDigit(y % 16)]);
      } else {
        HexOrder(x / 16, y / 16, n - 1);
        OrderBefore(Hex(x / 16, n - 1), Hex(y / 16, n - 1), [HexDigit(x % 16)], [HexDigit(y % 16)]);
      }
    }
  }

  lemma {:induction false} HexLength(x: nat, n: nat)
    ensures |Hex(x, n)| == n
    decreases n
  {
    if n > 0 {
      HexLength(x / 16, n - 1);
    }
  }

  /** Of two variants of one symbol, the one with the smaller variant hash comes first. */
  lemma VariantOrder(s: Symbol, t: Symbol)
    requires s.library == t.library && s.name == t.name && s.hashText == t.hashText && s.variantHash < t.variantHash
    ensures KeyLess(KeyOf(s), KeyOf(t))
  {
    Pow32();
    HexOrder(s.variantHash, t.variantHash, 8);
    OrderBehind(Identity(s) + ['\n'] + s.hashText + ['\n'], Hex(s.variantHash, 8), Hex(t.variantHash, 8));
  }

  ghost predicate IsLeast(k: Key, keys: set<Key>) {
    k in keys && forall l <- keys :: l == k || KeyLess(k, l)
  }

  lemma {:induction false} LeastKey(keys: set<Key>) returns (k: Key)
    requires keys != {}
    ensures IsLeast(k, keys)
    decreases |keys|
  {
    k :| k in keys;
    var rest := keys - {k};
    if rest != {} {
      var l := LeastKey(rest);
      KeyOrderTotal(k, l);
      forall m <- rest ensures KeyLess(k, l) ==> KeyLess(k, m) {
        if KeyLess(k, l) && m != l {
          KeyOrderTransitive(k, l, m);
        }
      }
      if !KeyLess(k, l) {
        k := l;
      }
    }
  }

  /** Loading files every record under its own key. */
  ghost predicate Keyed(db: Database) {
    forall k <- db :: KeyOf(db[k]) == k
  }

  /** The identity tells library and name apart when no library name contains a line break. */
  lemma IdentityTells(s: Symbol, t: Symbol)
    requires '\n' !in s.library && '\n' !in t.library
    ensures Identity(s) == Identity(t) <==> s.library == t.library && s.name == t.name
  {
    if Identity(s) == Identity(t) {
      FirstBreak(s, t);
      FirstBreak(t, s);
      assert Identity(s)[..|s.library|] == s.library && Identity(t)[..|t.library|] == t.library;
      assert Identity(s)[|s.library| + 1..] == s.name && Identity(t)[|t.library| + 1..] == t.name;
    }
  }

  lemma FirstBreak(s: Symbol, t: Symbol)
    requires '\n' !in t.library && Identity(s) == Identity(t)
    ensures |s.library| >= |t.library|
  {
    assert Identity(s)[|s.library|] == '\n';
    assert forall i :: 0 <= i < |t.library| ==> Identity(t)[i] == t.library[i];
  }

  // ---- Hits ---------------------------------------------------------------------------------

  predicate ZeroWord(data: seq<byte>, at: nat) {
    at + 4 <= |data| && Word(data, at) == 0
  }

  /** The symbol's size, extended over all the zero words that follow it in the section. */
  ghost predicate Extended(data: seq<byte>, at: nat, size: nat, actualSize: nat) {
    && size <= actualSize && (actualSize - size) % 4 == 0
    && (forall k: nat :: size + 4 * k < actualSize ==> ZeroWord(data, at + (size + 4 * k)))
    && !ZeroWord(data, at + actualSize)
  }

  /** The section's code at offset o is that of symbol s. */
  ghost predicate Found(sc: Scanner, section: Section, o: uint32, s: Symbol) {
    && section.isCode && o % 4 == 0 && o + 4 <= |section.data|
    && s in Below(sc.db, section.data, o, sc.root)
    && s.isFunction && 0 < s.size <= |section.data| - o
    && Verdict(s.relocations, section.data[o..o + s.size], sc.digest, s.hash)
  }

  ghost predicate HitAt(sc: Scanner, section: Section, o: uint32, c: Candidate) {
    && Found(sc, section, o, c.symbol)
    && c.address == Wrap32(section.address + o)
    && Extended(section.data, o, c.symbol.size, c.actualSize)
  }

  /** The hits of the given symbols at offset o. */
  ghost function WordHits(sc: Scanner, section: Section, o: uint32, symbols: seq<Symbol>): iset<Candidate> {
    iset c: Candidate | c.symbol in symbols && HitAt(sc, section, o, c)
  }

  ghost function HitsAt(sc: Scanner, section: Section, o: uint32): iset<Candidate> {
    iset c | HitAt(sc, section, o, c)
  }

  /** The hits at the offsets below bound. */
  ghost function SectionHits(sc: Scanner, section: Section, bound: nat): iset<Candidate> {
    iset c: Candidate, o: uint32 | o < bound && HitAt(sc, section, o, c) :: c
  }

  ghost function Hits(sc: Scanner, sections: seq<Section>): iset<Candidate>
    decreases |sections|
  {
    if sections == [] then iset{}
    else
      var last := sections[|sections| - 1];
      Hits(sc, sections[..|sections| - 1]) + SectionHits(sc, last, |last.data|)
  }

  // ---- Collecting ---------------------------------------------------------------------------

  type Candidates = map<uint32, map<Key, Candidate>>

  predicate Holds(cands: Candidates, a: uint32, k: Key) {
    a in cands && k in cands[a]
  }

  /** The map has, per address and symbol, one of the hits, and misses none. */
  ghost predicate Collected(cands: Candidates, hits: iset<Candidate>) {
    && (forall a, k :: Holds(cands, a, k) ==>
          cands[a][k] in hits && cands[a][k].address == a && KeyOf(cands[a][k].symbol) == k)
    && (forall c :: c in hits ==> Holds(cands, c.address, KeyOf(c.symbol)))
  }

  function Put(cands: Candidates, a: uint32, k: Key, c: Candidate): Candidates {
    cands[a := (if a in cands then cands[a] else map[])[k := c]]
  }

  lemma PutHolds(cands: Candidates, a: uint32, k: Key, c: Candidate)
    ensures Holds(Put(cands, a, k, c), a, k) && Put(cands, a, k, c)[a][k] == c
    ensures forall b, l :: b != a || l != k ==>
      (Holds(Put(cands, a, k, c), b, l) <==> Holds(cands, b, l))
      && (Holds(cands, b, l) ==> Put(cands, a, k, c)[b][l] == cands[b][l])
  {
  }

  function WithCandidate(cands: Candidates, c: Candidate): Candidates {
    Put(cands, c.address, KeyOf(c.symbol), c)
  }

  lemma WithCandidateCollects(cands: Candidates, hits: iset<Candidate>, c: Candidate)
    requires Collected(cands, hits)
    ensures Collected(WithCandidate(cands, c), hits + iset{c})
  {
    PutHolds(cands, c.address, KeyOf(c.symbol), c);
  }

  /** Zero words behind the symbol count as part of it. */
  method ExtendOverZeros(data: seq<byte>, at: nat, size: nat) returns (actualSize: nat)
    requires at + 4 <= |data| && size <= |data| - at
    ensures Extended(data, at, size, actualSize)
  {
    actualSize := size;
    ghost var n := 0;
    while actualSize <= |data| - at - 4 && Word(data, at + actualSize) == 0
      invariant actualSize == size + 4 * n <= |data| - at
      invariant forall k: nat :: k < n ==> ZeroWord(data, at + (size + 4 * k))
      decreases |data| - actualSize
    {
      assert ZeroWord(data, at + (size + 4 * n));
      actualSize := actualSize + 4;
      n := n + 1;
    }
  }

  lemma ExtendedOnce(data: seq<byte>, at: nat, size: nat, x: nat, y: nat)
    requires Extended(data, at, size, x) && Extended(data, at, size, y)
    ensures x <= y
  {
    var k := (y - size) / 4;
    assert size + 4 * k == y;
  }

  lemma OneHit(sc: Scanner, section: Section, o: uint32, c: Candidate)
    requires HitAt(sc, section, o, c)
    ensures WordHits(sc, section, o, [c.symbol]) == iset{c}
  {
    forall d | d in WordHits(sc, section, o, [c.symbol]) ensures d == c {
      ExtendedOnce(section.data, o, c.symbol.size, c.actualSize, d.actualSize);
      ExtendedOnce(section.data, o, c.symbol.size, d.actualSize, c.actualSize);
    }
  }

  /** One symbol the trie offers at one word of a section. */
  method TrySymbol(sc: Scanner, section: Section, o: uint32, symbol: Symbol, cands: Candidates,
                   ghost hits: iset<Candidate>) returns (cands': Candidates)
    requires section.isCode && o % 4 == 0 && o + 4 <= |section.data| && Collected(cands, hits)
    requires symbol in Below(sc.db, section.data, o, sc.root)
    ensures Collected(cands', hits + WordHits(sc, section, o, [symbol]))
  {
    cands' := cands;
    if symbol.isFunction && symbol.size != 0 && symbol.size <= |section.data| - o {
      var matches := MatchesSymbol(section.data, o, symbol, sc.digest);
      if matches {
        var actualSize := ExtendOverZeros(section.data, o, symbol.size);
        var candidate := Candidate(symbol, Wrap32(section.address + o), actualSize);
        OneHit(sc, section, o, candidate);
        WithCandidateCollects(cands, hits, candidate);
        return WithCandidate(cands, candidate);
      }
    }
    assert hits + WordHits(sc, section, o, [symbol]) == hits;
  }

  lemma NextSymbol(sc: Scanner, section: Section, o: uint32, symbols: seq<Symbol>, symbol: Symbol)
    ensures WordHits(sc, section, o, symbols) + WordHits(sc, section, o, [symbol])
            == WordHits(sc, section, o, symbols + [symbol])
  {
  }

  /** All hits at one word of a section. */
  method ScanWord(sc: Scanner, section: Section, o: uint32, cands: Candidates, ghost hits: iset<Candidate>)
    returns (cands': Candidates)
    requires section.isCode && o % 4 == 0 && o + 4 <= |section.data| && Collected(cands, hits)
    ensures Collected(cands', hits + HitsAt(sc, section, o))
  {
    cands' := cands;
    var found := FindCandidateSymbols(sc.db, section.data, o, sc.root);
    assert forall s :: s in found <==> s in multiset(found);
    assert hits + WordHits(sc, section, o, found[..0]) == hits;
    for j := 0 to |found|
      invariant Collected(cands', hits + WordHits(sc, section, o, found[..j]))
    {
      cands' := TrySymbol(sc, section, o, found[j], cands', hits + WordHits(sc, section, o, found[..j]));
      NextSymbol(sc, section, o, found[..j], found[j]);
      assert found[..j] + [found[j]] == found[..j + 1];
      assert hits + WordHits(sc, section, o, found[..j]) + WordHits(sc, section, o, [found[j]])
             == hits + WordHits(sc, section, o, found[..j + 1]);
    }
    assert found[..|found|] == found;
    AllOffered(sc, section, o, found);
  }

  lemma AllOffered(sc: Scanner, section: Section, o: uint32, symbols: seq<Symbol>)
    requires forall s :: s in Below(sc.db, section.data, o, sc.root) ==> s in symbols
    ensures WordHits(sc, section, o, symbols) == HitsAt(sc, section, o)
  {
  }

  lemma HitIsAligned(sc: Scanner, section: Section, o: uint32, c: Candidate)
    requires HitAt(sc, section, o, c)
    ensures o % 4 == 0
  {
  }

  lemma NextOffset(sc: Scanner, section: Section, o: uint32)
    requires o % 4 == 0
    ensures SectionHits(sc, section, o + 4)
            == SectionHits(sc, section, o) + HitsAt(sc, section, o)
  {
    forall c, p: uint32 | HitAt(sc, section, p, c) ensures p % 4 == 0 {
      HitIsAligned(sc, section, p, c);
    }
  }

  /** Offsets are 32-bit, so the loop ends only in sections that leave out the last word of the address space. */
  predicate Scannable(section: Section) {
    |section.data| < 0xFFFF_FFFC
  }

  /** What the loop condition compares with the section size after k steps. */
  function LoopOffset(k: nat): uint32 {
    Wrap32(Wrap32(4 * k) + 4)
  }

  /** Exactly in the other sections the loop condition holds after every number of steps. */
  lemma ScanLoopsForeverIff(section: Section)
    requires |section.data| < TWO_32
    ensures Scannable(section) <==> exists k: nat :: LoopOffset(k) > |section.data|
  {
    assert LoopOffset(0x3FFF_FFFE) == 0xFFFF_FFFC;
    forall k: nat ensures LoopOffset(k) <= 0xFFFF_FFFC {
      assert LoopOffset(k) % 4 == 0;
    }
  }

  /** A section of 2^32 - 4 bytes is scanned forever. */
  lemma ScanRunsAway(section: Section, k: nat)
    requires |section.data| == 0xFFFF_FFFC
    ensures LoopOffset(k) <= |section.data|
  {
    ScanLoopsForeverIff(section);
  }

  method ScanSection(sc: Scanner, section: Section, cands: Candidates, ghost hits: iset<Candidate>)
    returns (cands': Candidates)
    requires Scannable(section) && Collected(cands, hits)
    ensures Collected(cands', hits + SectionHits(sc, section, |section.data|))
  {
    cands' := cands;
    assert hits + SectionHits(sc, section, 0) == hits;
    if !section.isCode || |section.data| < 4 {
      assert SectionHits(sc, section, |section.data|) == SectionHits(sc, section, 0);
      return;
    }
    var offset: uint32 := 0;
    while offset + 4 <= |section.data|
      invariant offset % 4 == 0 && offset <= |section.data|
      invariant Collected(cands', hits + SectionHits(sc, section, offset))
    {
      cands' := ScanWord(sc, section, offset, cands', hits + SectionHits(sc, section, offset));
      NextOffset(sc, section, offset);
      assert hits + SectionHits(sc, section, offset) + HitsAt(sc, section, offset)
             == hits + SectionHits(sc, section, offset + 4);
      offset := offset + 4;
    }
    assert SectionHits(sc, section, |section.data|) == SectionHits(sc, section, offset);
  }

  method Collect(sc: Scanner, sections: seq<Section>) returns (cands: Candidates)
    requires forall section <- sections :: Scannable(section)
    ensures Collected(cands, Hits(sc, sections))
  {
    cands := map[];
    for i := 0 to |sections|
      invariant Collected(cands, Hits(sc, sections[..i]))
    {
      cands := ScanSection(sc, sections[i], cands, Hits(sc, sections[..i]));
      assert sections[..i + 1][..i] == sections[..i];
    }
    assert sections[..|sections|] == sections;
  }

  // ---- Resolving ----------------------------------------------------------------------------

  /** Enough static bits to tell it from other code. */
  predicate Viable(sc: Scanner, c: Candidate) {
    sc.staticBits(c.symbol) >= 256
  }

  /** The order candidates for one address are compared in. */
  predicate Worse(sc: Scanner, c: Candidate, d: Candidate) {
    if c.actualSize != d.actualSize then c.actualSize < d.actualSize
    else sc.staticBits(c.symbol) < sc.staticBits(d.symbol)
  }

  ghost predicate ViableIn(sc: Scanner, byKey: map<Key, Candidate>, k: Key) {
    k in byKey && Viable(sc, byKey[k])
  }

  /** Candidates are stored under their symbols' keys. */
  ghost predicate FiledByKey(byKey: map<Key, Candidate>) {
    forall k <- byKey :: KeyOf(byKey[k].symbol) == k
  }

  ghost predicate InKeyOrder(viable: seq<Candidate>) {
    forall i, j :: 0 <= i < j < |viable| ==> KeyLess(KeyOf(viable[i].symbol), KeyOf(viable[j].symbol))
  }

  /** The viable candidates, in the order of their keys. */
  method ViableCandidates(sc: Scanner, byKey: map<Key, Candidate>) returns (viable: seq<Candidate>)
    requires FiledByKey(byKey)
    ensures forall c :: c in viable <==> exists k :: ViableIn(sc, byKey, k) && byKey[k] == c
    ensures InKeyOrder(viable)
  {
    viable := [];
    var pending := byKey.Keys;
    while pending != {}
      invariant pending <= byKey.Keys && ListedBut(sc, byKey, pending, viable)
      decreases pending
    {
      var k := NextKey(pending);
      if sc.staticBits(byKey[k].symbol) >= 256 {
        OneMoreListed(sc, byKey, pending, viable, k);
        viable := viable + [byKey[k]];
      }
      pending := pending - {k};
    }
  }

  /** The list when the pending keys are still to come. */
  ghost predicate ListedBut(sc: Scanner, byKey: map<Key, Candidate>, pending: set<Key>, viable: seq<Candidate>) {
    && (forall c :: c in viable <==> exists k :: k !in pending && ViableIn(sc, byKey, k) && byKey[k] == c)
    && InKeyOrder(viable)
    && (forall c <- viable, k <- pending :: KeyLess(KeyOf(c.symbol), k))
  }

  lemma OneMoreListed(sc: Scanner, byKey: map<Key, Candidate>, pending: set<Key>, viable: seq<Candidate>, k: Key)
    requires ListedBut(sc, byKey, pending, viable) && FiledByKey(byKey)
    requires IsLeast(k, pending) && ViableIn(sc, byKey, k)
    ensures ListedBut(sc, byKey, pending - {k}, viable + [byKey[k]])
  {
    var list := viable + [byKey[k]];
    forall c ensures c in list <==> exists l :: l !in pending - {k} && ViableIn(sc, byKey, l) && byKey[l] == c {
    }
  }

  method NextKey(keys: set<Key>) returns (k: Key)
    requires keys != {}
    ensures IsLeast(k, keys)
  {
    ghost var least := LeastKey(keys);
    k :| k in keys && forall l <- keys :: l == k || KeyLess(k, l);
  }

  /** c comes before d: it is better, or as good and earlier in key order. */
  predicate Preferred(sc: Scanner, c: Candidate, d: Candidate) {
    Worse(sc, d, c) || (!Worse(sc, c, d) && KeyLess(KeyOf(c.symbol), KeyOf(d.symbol)))
  }

  /** The first of the largest elements. */
  method MaxElement(sc: Scanner, viable: seq<Candidate>) returns (best: Candidate)
    requires viable != [] && InKeyOrder(viable)
    ensures best in viable && forall c <- viable :: c == best || Preferred(sc, best, c)
  {
    best := viable[0];
    ghost var m := 0;
    for i := 1 to |viable|
      invariant m < i && best == viable[m]
      invariant forall j :: 0 <= j < m ==> Worse(sc, viable[j], best)
      invariant forall j :: m < j < i ==> !Worse(sc, best, viable[j])
    {
      var less := if best.actualSize != viable[i].actualSize then best.actualSize < viable[i].actualSize
                  else sc.staticBits(best.symbol) < sc.staticBits(viable[i].symbol);
      if less {
        best := viable[i];
        m := i;
      }
    }
  }

  ghost predicate Unambiguous(sc: Scanner, byKey: map<Key, Candidate>) {
    && (exists k :: ViableIn(sc, byKey, k))
    && forall k, l :: ViableIn(sc, byKey, k) && ViableIn(sc, byKey, l) ==>
         Identity(byKey[k].symbol) == Identity(byKey[l].symbol)
  }

  ghost predicate BestOf(sc: Scanner, byKey: map<Key, Candidate>, c: Candidate) {
    && (exists k :: ViableIn(sc, byKey, k) && byKey[k] == c)
    && forall k :: ViableIn(sc, byKey, k) ==> byKey[k] == c || Preferred(sc, c, byKey[k])
  }

  datatype Resolution = Unresolved | Best(candidate: Candidate)

  method ResolveAddress(sc: Scanner, byKey: map<Key, Candidate>) returns (r: Resolution)
    requires FiledByKey(byKey)
    ensures r.Best? <==> Unambiguous(sc, byKey)
    ensures r.Best? ==> BestOf(sc, byKey, r.candidate)
  {
    var viable := ViableCandidates(sc, byKey);
    UnambiguousIs(sc, byKey, viable);
    if viable == [] {
      return Unresolved;
    }
    assert viable[0] in viable;
    var identities := set c <- viable :: c.symbol.library + ['\n'] + c.symbol.name;
    assert forall c <- viable :: Identity(c.symbol) in identities;
    if |identities| != 1 {
      SeveralIdentities(identities, Identity(viable[0].symbol));
      return Unresolved;
    }
    OneIdentity(identities, Identity(viable[0].symbol));
    var best := MaxElement(sc, viable);
    assert forall k :: ViableIn(sc, byKey, k) ==> byKey[k] in viable;
    r := Best(best);
  }

  lemma UnambiguousIs(sc: Scanner, byKey: map<Key, Candidate>, viable: seq<Candidate>)
    requires forall c :: c in viable <==> exists k :: ViableIn(sc, byKey, k) && byKey[k] == c
    ensures Unambiguous(sc, byKey)
            <==> viable != [] && forall c <- viable :: Identity(c.symbol) == Identity(viable[0].symbol)
  {
    assert forall k :: ViableIn(sc, byKey, k) ==> byKey[k] in viable;
    assert viable != [] ==> viable[0] in viable;
  }

  lemma OneIdentity(identities: set<string>, x: string)
    requires x in identities && |identities| == 1
    ensures forall y <- identities :: y == x
  {
    assert |identities - {x}| == 0;
  }

  lemma SeveralIdentities(identities: set<string>, x: string)
    requires x in identities && |identities| != 1
    ensures exists y <- identities :: y != x
  {
    assert |identities - {x}| == |identities| - 1;
    var y :| y in identities - {x};
  }

  datatype SymbolMatch = SymbolMatch(address: uint32, size: nat, name: string, library: string,
                                     hashText: string, variantHash: uint32)

  /** What a match says of the candidate it reports. */
  predicate Reports(m: SymbolMatch, c: Candidate) {
    && m.address == c.address && m.size == c.actualSize
    && m.name == c.symbol.name && m.library == c.symbol.library
    && m.hashText == c.symbol.hashText && m.variantHash == c.symbol.variantHash
  }

  ghost predicate ReportedFor(sc: Scanner, cands: Candidates, m: SymbolMatch) {
    && m.address in cands && Unambiguous(sc, cands[m.address])
    && exists c :: BestOf(sc, cands[m.address], c) && Reports(m, c)
  }

  ghost predicate HasAddress(matches: seq<SymbolMatch>, a: uint32) {
    exists m <- matches :: m.address == a
  }

  /** The matches found when the pending addresses are still to come. */
  ghost predicate ResolvedBut(sc: Scanner, cands: Candidates, pending: set<uint32>, matches: seq<SymbolMatch>) {
    && Sorting.DistinctKeys(matches, (m: SymbolMatch) => m.address)
    && (forall m <- matches :: m.address !in pending && ReportedFor(sc, cands, m))
    && (forall a :: a in cands && a !in pending && Unambiguous(sc, cands[a]) ==> HasAddress(matches, a))
  }

  lemma OneMatch(sc: Scanner, cands: Candidates, pending: set<uint32>, matches: seq<SymbolMatch>, m: SymbolMatch)
    requires ResolvedBut(sc, cands, pending, matches) && m.address in pending && ReportedFor(sc, cands, m)
    ensures ResolvedBut(sc, cands, pending - {m.address}, matches + [m])
  {
    assert forall a :: HasAddress(matches, a) ==> HasAddress(matches + [m], a);
    assert m in matches + [m];
  }

  /** One match per unambiguous address, in address order. */
  method ResolveCandidates(sc: Scanner, cands: Candidates) returns (matches: seq<SymbolMatch>)
    requires forall a <- cands, k <- cands[a] :: cands[a][k].address == a && KeyOf(cands[a][k].symbol) == k
    ensures Sorting.SortedBy(matches, (m: SymbolMatch) => m.address)
    ensures forall m <- matches :: ReportedFor(sc, cands, m)
    ensures forall a :: HasAddress(matches, a) <==> a in cands && Unambiguous(sc, cands[a])
  {
    matches := [];
    var pending := cands.Keys;
    while pending != {}
      invariant pending <= cands.Keys && ResolvedBut(sc, cands, pending, matches)
      decreases pending
    {
      var address :| address in pending;
      var r := ResolveAddress(sc, cands[address]);
      if r.Best? {
        var best := r.candidate;
        var m := SymbolMatch(address, best.actualSize, best.symbol.name, best.symbol.library,
                             best.symbol.hashText, best.symbol.variantHash);
        OneMatch(sc, cands, pending, matches, m);
        matches := matches + [m];
      }
      pending := pending - {address};
    }
    var sorted := Sorting.Sort(matches, (m: SymbolMatch) => m.address);
    assert forall a :: HasAddress(sorted, a) <==> HasAddress(matches, a);
    matches := sorted;
  }

  // ---- The whole scan -----------------------------------------------------------------------

  /** c is a hit at address a of a symbol that is viable. */
  ghost predicate ViableHit(sc: Scanner, hits: iset<Candidate>, a: uint32, c: Candidate) {
    c in hits && c.address == a && Viable(sc, c)
  }

  /** There are viable hits at a, and all are of one identity. */
  ghost predicate Decided(sc: Scanner, hits: iset<Candidate>, a: uint32) {
    && (exists c :: ViableHit(sc, hits, a, c))
    && forall c, d :: ViableHit(sc, hits, a, c) && ViableHit(sc, hits, a, d) ==> Identity(c.symbol) == Identity(d.symbol)
  }

  /** c is a viable hit at a, and preferred to every other symbol that hits there. */
  ghost predicate BestHit(sc: Scanner, hits: iset<Candidate>, a: uint32, c: Candidate) {
    && ViableHit(sc, hits, a, c)
    && forall d :: ViableHit(sc, hits, a, d) ==>
         exists d' :: ViableHit(sc, hits, a, d') && d'.symbol == d.symbol && (d' == c || Preferred(sc, c, d'))
  }

  /** A best hit has at least 256 static bits; no symbol at the address is only hit with a larger size, or
      with the same size, more static bits, or as many and an earlier key. */
  lemma BestIsLargest(sc: Scanner, hits: iset<Candidate>, a: uint32, c: Candidate, d: Candidate) returns (d': Candidate)
    requires BestHit(sc, hits, a, c) && ViableHit(sc, hits, a, d)
    ensures c.address == a && sc.staticBits(c.symbol) >= 256
    ensures ViableHit(sc, hits, a, d') && d'.symbol == d.symbol && d'.actualSize <= c.actualSize
    ensures d'.actualSize == c.actualSize ==> sc.staticBits(d'.symbol) <= sc.staticBits(c.symbol)
    ensures d'.actualSize == c.actualSize && sc.staticBits(d'.symbol) == sc.staticBits(c.symbol) ==>
      d' == c || KeyLess(KeyOf(c.symbol), KeyOf(d'.symbol))
  {
    d' :| ViableHit(sc, hits, a, d') && d'.symbol == d.symbol && (d' == c || Preferred(sc, c, d'));
  }

  ghost predicate FromDatabase(sc: Scanner, hits: iset<Candidate>) {
    forall c <- hits :: InDatabase(sc.db, c.symbol)
  }

  ghost predicate InDatabase(db: Database, s: Symbol) {
    exists k <- db :: db[k] == s
  }

  lemma {:induction false} KnownInDatabase(db: Database, keys: seq<Key>, x: Symbol)
    requires x in Known(db, keys)
    ensures InDatabase(db, x)
    decreases |keys|
  {
    if !(keys[|keys| - 1] in db && db[keys[|keys| - 1]] == x) {
      KnownInDatabase(db, keys[..|keys| - 1], x);
    }
  }

  lemma {:induction false} HitsFromDatabase(sc: Scanner, sections: seq<Section>)
    ensures FromDatabase(sc, Hits(sc, sections))
    decreases |sections|
  {
    if sections != [] {
      var section := sections[|sections| - 1];
      HitsFromDatabase(sc, sections[..|sections| - 1]);
      forall o: uint32, c | HitAt(sc, section, o, c) ensures InDatabase(sc.db, c.symbol) {
        OfferedIffBelow(sc.db, section.data, o, sc.root, c.symbol);
        var path :| path != [] && Walks(section.data, o, sc.root, path)
          && c.symbol in Known(sc.db, Target(section.data, o, sc.root, path).symbols);
        KnownInDatabase(sc.db, Target(section.data, o, sc.root, path).symbols, c.symbol);
      }
    }
  }

  /** The hits of a scan, spelled out. */
  lemma {:induction false} HitsAre(sc: Scanner, sections: seq<Section>, c: Candidate)
    ensures c in Hits(sc, sections) <==> exists i, o: uint32 :: 0 <= i < |sections| && HitAt(sc, sections[i], o, c)
    decreases |sections|
  {
    if sections != [] {
      var last := |sections| - 1;
      HitsAre(sc, sections[..last], c);
      assert forall o: uint32 :: HitAt(sc, sections[last], o, c) ==> o < |sections[last].data|;
      assert forall i :: 0 <= i < last ==> sections[..last][i] == sections[i];
    }
  }

  /** The stored candidate stands for every hit of its symbol. */
  lemma StoredFor(sc: Scanner, cands: Candidates, hits: iset<Candidate>, a: uint32, c: Candidate)
    requires Collected(cands, hits) && Keyed(sc.db) && FromDatabase(sc, hits)
    requires ViableHit(sc, hits, a, c)
    ensures a in cands && ViableIn(sc, cands[a], KeyOf(c.symbol))
    ensures var d := cands[a][KeyOf(c.symbol)]; ViableHit(sc, hits, a, d) && d.symbol == c.symbol
  {
    assert Holds(cands, c.address, KeyOf(c.symbol));
    var d := cands[a][KeyOf(c.symbol)];
    assert d in hits;
  }

  lemma DecidedIff(sc: Scanner, cands: Candidates, hits: iset<Candidate>, a: uint32)
    requires Collected(cands, hits) && Keyed(sc.db) && FromDatabase(sc, hits)
    ensures Decided(sc, hits, a) <==> a in cands && Unambiguous(sc, cands[a])
  {
    forall c | ViableHit(sc, hits, a, c)
      ensures a in cands && ViableIn(sc, cands[a], KeyOf(c.symbol)) && cands[a][KeyOf(c.symbol)].symbol == c.symbol
    {
      StoredFor(sc, cands, hits, a, c);
    }
    if a in cands {
      forall k | ViableIn(sc, cands[a], k) ensures ViableHit(sc, hits, a, cands[a][k]) {
        assert Holds(cands, a, k);
      }
    }
  }

  lemma BestIsBestHit(sc: Scanner, cands: Candidates, hits: iset<Candidate>, a: uint32, c: Candidate)
    requires Collected(cands, hits) && Keyed(sc.db) && FromDatabase(sc, hits)
    requires a in cands && BestOf(sc, cands[a], c)
    ensures BestHit(sc, hits, a, c)
  {
    var k :| ViableIn(sc, cands[a], k) && cands[a][k] == c;
    assert Holds(cands, a, k);
    forall d | ViableHit(sc, hits, a, d)
      ensures exists d' :: ViableHit(sc, hits, a, d') && d'.symbol == d.symbol && (d' == c || Preferred(sc, c, d'))
    {
      StoredFor(sc, cands, hits, a, d);
    }
  }

  /** Main result: in address order, exactly the addresses where all viable hits are of one identity,
      each with a best hit. */
  method Scan(sc: Scanner, sections: seq<Section>) returns (matches: seq<SymbolMatch>)
    requires Keyed(sc.db) && forall section <- sections :: Scannable(section)
    ensures forall i, j :: 0 <= i < j < |matches| ==> matches[i].address < matches[j].address
    ensures forall a :: HasAddress(matches, a) <==> Decided(sc, Hits(sc, sections), a)
    ensures forall m <- matches :: exists c :: BestHit(sc, Hits(sc, sections), m.address, c) && Reports(m, c)
  {
    ghost var hits := Hits(sc, sections);
    var cands := Collect(sc, sections);
    HitsFromDatabase(sc, sections);
    assert forall a <- cands, k <- cands[a] :: Holds(cands, a, k);
    matches := ResolveCandidates(sc, cands);
    forall a: uint32 ensures Decided(sc, hits, a) <==> a in cands && Unambiguous(sc, cands[a]) {
      DecidedIff(sc, cands, hits, a);
    }
    forall m <- matches ensures exists c :: BestHit(sc, hits, m.address, c) && Reports(m, c) {
      assert ReportedFor(sc, cands, m);
      var c :| BestOf(sc, cands[m.address], c) && Reports(m, c);
      BestIsBestHit(sc, cands, hits, m.address, c);
    }
  }
}
