/** Payload on a b-tree page and its overflow chain: fillInCell, accessPayload, clearCell. */
module OverflowChain {
  import opened Bytes
  import opened Arith

  type Pages = map<nat, seq<Byte>>

  function Head(chain: seq<nat>): (p: nat) {
    if chain == [] then 0 else chain[0]
  }

  /** Page `pg` begins with the number of the next page, and then holds `content`. */
  ghost predicate OnPage(pages: Pages, sz: nat, pg: nat, next: nat, content: seq<Byte>) {
    && pg in pages && |pages[pg]| >= 4 + sz && |content| <= sz
    && Get4(pages[pg], 0) == next && pages[pg][4..4 + |content|] == content
  }

  /** The pages of `chain`, each linked to the next, hold `rest`: sz bytes on each but the last. */
  ghost predicate Holds(pages: Pages, sz: nat, chain: seq<nat>, rest: seq<Byte>)
    decreases |chain|
  {
    if |chain| == 0 then rest == []
    else if |chain| == 1 then OnPage(pages, sz, chain[0], 0, rest)
    else |rest| >= sz && OnPage(pages, sz, chain[0], chain[1], rest[..sz]) && Holds(pages, sz, chain[1..], rest[sz..])
  }

  /** Bytes on the last page. */
  ghost function LastFill(sz: nat, chain: seq<nat>, rest: seq<Byte>): (n: nat)
    decreases |chain|
  {
    if |chain| <= 1 || |rest| < sz then |rest| else LastFill(sz, chain[1..], rest[sz..])
  }

  lemma {:induction false} HoldsPages(pages: Pages, sz: nat, chain: seq<nat>, rest: seq<Byte>, i: nat)
    requires Holds(pages, sz, chain, rest) && i < |chain|
    ensures chain[i] in pages && |pages[chain[i]]| >= 4 + sz
    ensures Get4(pages[chain[i]], 0) == if i + 1 < |chain| then chain[i + 1] else 0
    decreases |chain|
  {
    if i > 0 {
      HoldsPages(pages, sz, chain[1..], rest[sz..], i - 1);
    }
  }

  ghost predicate Distinct(chain: seq<nat>) {
    forall i, j | 0 <= i < j < |chain| :: chain[i] != chain[j]
  }

  function Last(chain: seq<nat>): (p: nat)
    requires chain != []
  {
    chain[|chain| - 1]
  }

  /** Writing `more` behind the bytes of the last page. */
  lemma {:induction false} WriteLast(pages: Pages, pages': Pages, sz: nat, chain: seq<nat>, rest: seq<Byte>,
                                     more: seq<Byte>)
    requires chain != [] && Distinct(chain) && Holds(pages, sz, chain, rest) && LastFill(sz, chain, rest) + |more| <= sz
    requires Last(chain) in pages && |pages[Last(chain)]| >= 4 + sz
    requires pages' == pages[Last(chain) := Splice(pages[Last(chain)], 4 + LastFill(sz, chain, rest), more)]
    ensures Holds(pages', sz, chain, rest + more) && LastFill(sz, chain, rest + more) == LastFill(sz, chain, rest)
      + |more|
    decreases |chain|
  {
    if |chain| == 1 {
      SpliceBehind(pages[chain[0]], rest, more);
    } else {
      assert Last(chain[1..]) == Last(chain);
      WriteLast(pages, pages', sz, chain[1..], rest[sz..], more);
      assert (rest + more)[..sz] == rest[..sz] && (rest + more)[sz..] == rest[sz..] + more;
    }
  }

  lemma SpliceBehind(page: seq<Byte>, rest: seq<Byte>, more: seq<Byte>)
    requires 4 + |rest| + |more| <= |page| && page[4..4 + |rest|] == rest
    ensures var page' := Splice(page, 4 + |rest|, more);
      page'[4..4 + |rest + more|] == rest + more && Get4(page', 0) == Get4(page, 0)
  {
    var page' := Splice(page, 4 + |rest|, more);
    forall i | 0 <= i < |rest + more| ensures page'[4 + i] == (rest + more)[i] {
      if i < |rest| {
        assert page[4..4 + |rest|][i] == rest[i];
      } else {
        assert page'[4 + |rest|..4 + |rest| + |more|][i - |rest|] == more[i - |rest|];
      }
    }
  }

  /** Linking an empty page behind a full last page. */
  lemma {:induction false} LinkLast(pages: Pages, pages': Pages, sz: nat, chain: seq<nat>, rest: seq<Byte>, pg: nat)
    requires chain != [] && Distinct(chain) && pg !in chain && Holds(pages, sz, chain, rest)
      && LastFill(sz, chain, rest) == sz > 0
    requires Last(chain) in pages && |pages[Last(chain)]| >= 4 + sz && pg < 0x1_0000_0000
    requires forall p | p in chain && p != Last(chain) :: p in pages && p in pages' && pages'[p] == pages[p]
    requires Last(chain) in pages' && pages'[Last(chain)] == Splice(pages[Last(chain)], 0, Enc4(pg))
    requires OnPage(pages', sz, pg, 0, [])
    ensures Holds(pages', sz, chain + [pg], rest) && LastFill(sz, chain + [pg], rest) == 0
    decreases |chain|
  {
    var chain' := chain + [pg];
    assert chain'[1..] == chain[1..] + [pg];
    if |chain| == 1 {
      assert rest[..sz] == rest && rest[sz..] == [];
      RelinkPage(pages[chain[0]], rest, pg);
    } else {
      assert Last(chain[1..]) == Last(chain) && chain[0] in chain;
      LinkLast(pages, pages', sz, chain[1..], rest[sz..], pg);
    }
  }

  lemma RelinkPage(page: seq<Byte>, rest: seq<Byte>, pg: nat)
    requires 4 + |rest| <= |page| && page[4..4 + |rest|] == rest && pg < 0x1_0000_0000
    ensures var page' := Splice(page, 0, Enc4(pg)); page'[4..4 + |rest|] == rest && Get4(page', 0) == pg
  {
    var page' := Splice(page, 0, Enc4(pg));
    assert page'[0..4] == Enc4(pg);
    assert forall i | 0 <= i < 4 :: page'[i] == Enc4(pg)[i];
    forall i | 0 <= i < |rest| ensures page'[4 + i] == rest[i] {
      assert page[4..4 + |rest|][i] == rest[i];
    }
  }

  /** Pages that hold n bytes, sz on each. */
  function PagesFor(n: int, sz: nat): (m: int)
    requires sz > 0
  {
    if n <= 0 then 0 else (n + sz - 1) / sz
  }

  /** The pages that hold a payload of which mn + d bytes are kept elsewhere. */
  lemma PagesKept(p: nat, mn: nat, d: nat, sz: nat)
    requires sz > 0 && mn + d < p && d < sz
    ensures PagesFor(p - (mn + d), sz) == (p - mn) / sz + if d < (p - mn) % sz then 1 else 0
  {
    var q, r := (p - mn) / sz, (p - mn) % sz;
    assert p - mn == q * sz + r;
    if d < r {
      assert (q + 1) * sz == q * sz + sz;
      DivUnique(p - (mn + d) + sz - 1, sz, q + 1, r - d - 1);
    } else {
      DivUnique(p - (mn + d) + sz - 1, sz, q, sz - 1 - (d - r));
    }
  }

  /** All pages but the last are full. */
  lemma {:induction false} ChainBytes(pages: Pages, sz: nat, chain: seq<nat>, rest: seq<Byte>)
    requires Holds(pages, sz, chain, rest) && chain != []
    ensures |rest| == (|chain| - 1) * sz + LastFill(sz, chain, rest)
    decreases |chain|
  {
    if |chain| > 1 {
      ChainBytes(pages, sz, chain[1..], rest[sz..]);
      assert (|chain| - 1) * sz == (|chain| - 2) * sz + sz;
    }
  }

  /** More than m full pages of bytes need more than m pages. */
  lemma MorePages(n: int, m: nat, sz: nat)
    requires sz > 0 && n > m * sz
    ensures PagesFor(n, sz) > m
  {
    var q := (n + sz - 1) / sz;
    assert n > 0 by {
      MulMono(0, m, sz);
    }
    assert (n + sz - 1) == q * sz + (n + sz - 1) % sz;
    if q <= m {
      MulMonoInt(q, m, sz);
    }
  }

  /** The number of pages is the quotient rounded up. */
  lemma {:induction false} ChainLength(pages: Pages, sz: nat, chain: seq<nat>, rest: seq<Byte>)
    requires sz > 0 && Holds(pages, sz, chain, rest) && chain != [] && LastFill(sz, chain, rest) > 0
    ensures |chain| == (|rest| + sz - 1) / sz == PagesFor(|rest|, sz)
    decreases |chain|
  {
    if |chain| == 1 {
      DivUnique(|rest| + sz - 1, sz, 1, |rest| - 1);
    } else {
      ChainLength(pages, sz, chain[1..], rest[sz..]);
      DivStep(|rest| - 1, sz);
    }
  }
}

module Payload {
  import opened Bytes
  import opened CellFormat
  import opened OverflowChain
  import Varint

  datatype Rc = Ok | Corrupt | Full

  /** What is to be stored: an integer key with data, or key bytes. */
  datatype Content = Content(nKey: int, key: seq<Byte>, data: seq<Byte>, nZero: nat)

  ghost function Zeros(n: nat): (z: seq<Byte>)
    ensures |z| == n
  {
    seq(n, _ => 0)
  }

  /** The payload bytes of an entry. */
  ghost function PayloadOf(k: Kind, c: Content): (p: seq<Byte>) {
    if !k.intKey then c.key else if k.HasData() then c.data + Zeros(c.nZero) else []
  }

  /** Rowids are 64-bit signed, keys and data are below two gigabytes, and index cells carry the length of the key. */
  ghost predicate ContentOk(k: Kind, c: Content) {
    && k.Valid() && |c.key| <= 0x7fff_ffff && |c.data| + c.nZero <= 0x7fff_ffff
    && -0x8000_0000_0000_0000 <= c.nKey < 0x8000_0000_0000_0000
    && (!k.intKey ==> c.nKey == |c.key|)
  }

  /** Overflow pages that an entry needs: none when the payload fits on the b-tree page, else as many as hold what is
      not kept there. */
  ghost function PagesNeeded(k: Kind, c: Content): (n: int)
    requires k.Valid()
  {
    PagesFor(|PayloadOf(k, c)| - LocalAmount(k, |PayloadOf(k, c)|), k.usable - 4)
  }

  /** The part of a payload kept on the b-tree page is all of it, or the least amount between the limits that needs the
      fewest overflow pages. */
  lemma FewestPages(k: Kind, nPayload: nat, n: nat)
    requires k.Valid() && k.MinLocal() <= n <= k.MaxLocal()
    ensures nPayload <= k.MaxLocal() ==> LocalAmount(k, nPayload) == nPayload
    ensures nPayload > k.MaxLocal() ==>
      && k.MinLocal() <= LocalAmount(k, nPayload) <= k.MaxLocal()
      && PagesFor(nPayload - LocalAmount(k, nPayload), k.usable - 4) <= PagesFor(nPayload - n, k.usable - 4)
      && (n < LocalAmount(k, nPayload) ==>
            PagesFor(nPayload - LocalAmount(k, nPayload), k.usable - 4) < PagesFor(nPayload - n, k.usable - 4))
  {
    LocalBounds(k, nPayload);
    if nPayload > k.MaxLocal() {
      PagesKept(nPayload, k.MinLocal(), n - k.MinLocal(), k.usable - 4);
      PagesKept(nPayload, k.MinLocal(), LocalAmount(k, nPayload) - k.MinLocal(), k.usable - 4);
    }
  }

  /** The header written by fillInCell behind the child pointer. */
  function Header(k: Kind, c: Content): (h: seq<Byte>)
  {
    (if k.HasData() then Varint.Encode(|c.data| + c.nZero) else []) + Varint.Encode(c.nKey % 0x1_0000_0000_0000_0000)
  }

  /** The cell with the pages of `chain` represents the payload p. */
  ghost predicate Represents(pages: Pages, k: Kind, cell: seq<Byte>, p: seq<Byte>, chain: seq<nat>)
  {
    k.Valid() && Carries(pages, k, Parse(k, cell), cell, p, chain)
  }

  /** The same, with what btreeParseCellPtr found in the cell. */
  ghost predicate Carries(pages: Pages, k: Kind, info: CellInfo, cell: seq<Byte>, p: seq<Byte>, chain: seq<nat>)
    requires k.Valid()
  {
    && info.nPayload == |p| && info.nSize == |cell| && info.nLocal <= |p| && info.nHeader + info.nLocal <= |cell|
    && cell[info.nHeader..info.nHeader + info.nLocal] == p[..info.nLocal]
    && Holds(pages, k.usable - 4, chain, p[info.nLocal..])
    && (info.nLocal < |p| <==> chain != [])
    && (chain != [] ==> info.iOverflow + 4 <= |cell| && Get4(cell, info.iOverflow) == chain[0] && chain[0] > 0)
    && (forall i | 0 <= i < |chain| :: chain[i] > 0)
    && (chain != [] ==> LastFill(k.usable - 4, chain, p[info.nLocal..]) > 0)
  }

  /** Parsing the header gives back the key and the payload size, whatever follows. */
  lemma HeaderParses(k: Kind, c: Content, child: seq<Byte>, post: seq<Byte>)
    requires ContentOk(k, c) && |child| == k.ChildPtrSize()
    ensures var info := Parse(k, child + Header(k, c) + post);
      info.nKey == c.nKey && info.nPayload == |PayloadOf(k, c)| && info.nHeader == |child| + |Header(k, c)|
  {
    if k.HasData() {
      DataHeaderParses(k, c, child, post);
    } else {
      KeyHeaderParses(k, c, child, post);
    }
  }

  lemma DataHeaderParses(k: Kind, c: Content, child: seq<Byte>, post: seq<Byte>)
    requires ContentOk(k, c) && k.HasData() && child == []
    ensures var info := Parse(k, child + Header(k, c) + post);
      info.nKey == c.nKey && info.nPayload == |c.data| + c.nZero && info.nHeader == |Header(k, c)|
  {
    var n, v := |c.data| + c.nZero, c.nKey % 0x1_0000_0000_0000_0000;
    var size, key, cell := Varint.Encode(n), Varint.Encode(v), child + Header(k, c) + post;
    assert Header(k, c) == size + key;
    assert cell == child + size + (key + post);
    DecodeAt(child, n, key + post);
    assert cell == (child + size) + key + post;
    DecodeAt(child + size, v, post);
    SignedBack(c.nKey);
  }

  lemma KeyHeaderParses(k: Kind, c: Content, child: seq<Byte>, post: seq<Byte>)
    requires ContentOk(k, c) && !k.HasData() && |child| == k.ChildPtrSize()
    ensures var info := Parse(k, child + Header(k, c) + post);
      info.nKey == c.nKey && info.nPayload == |PayloadOf(k, c)| && info.nHeader == |child| + |Header(k, c)|
  {
    var v := c.nKey % 0x1_0000_0000_0000_0000;
    HeaderIsKey(k, c, v);
    KeyParses(k, child, v, post);
    KeyBack(k, c, v);
  }

  lemma HeaderIsKey(k: Kind, c: Content, v: nat)
    requires !k.HasData() && v == c.nKey % 0x1_0000_0000_0000_0000
    ensures Header(k, c) == Varint.Encode(v)
  {
  }

  lemma KeyBack(k: Kind, c: Content, v: nat)
    requires ContentOk(k, c) && v == c.nKey % 0x1_0000_0000_0000_0000
    ensures if k.intKey then Signed64(v) == c.nKey else Saturate32(v) == c.nKey == |c.key|
  {
    SignedBack(c.nKey);
  }

  /** The one varint of a header without a data size. */
  lemma KeyParses(k: Kind, child: seq<Byte>, v: nat, post: seq<Byte>)
    requires k.Valid() && !k.HasData() && |child| == k.ChildPtrSize() && v < 0x1_0000_0000_0000_0000
    ensures var info := Parse(k, child + Varint.Encode(v) + post);
      && info.nHeader == |child| + |Varint.Encode(v)|
      && (if k.intKey then info.nKey == Signed64(v) && info.nPayload == 0
        else info.nKey == info.nPayload == Saturate32(v))
  {
    DecodeAt(child, v, post);
    ParseKeyOnly(k, child + Varint.Encode(v) + post, v, |Varint.Encode(v)|);
  }

  lemma ParseKeyOnly(k: Kind, cell: seq<Byte>, v: nat, n: nat)
    requires k.Valid() && !k.HasData() && Varint.Decode(From(cell, k.ChildPtrSize())) == (v, n)
    ensures var info := Parse(k, cell);
      && info.nHeader == k.ChildPtrSize() + n
      && (if k.intKey then info.nKey == Signed64(v) && info.nPayload == 0
        else info.nKey == info.nPayload == Saturate32(v))
  {
  }

  lemma DecodeAt(pre: seq<Byte>, v: nat, post: seq<Byte>)
    requires v < 0x1_0000_0000_0000_0000
    ensures Varint.Decode(From(pre + Varint.Encode(v) + post, |pre|)) == (v, |Varint.Encode(v)|)
  {
    assert From(pre + Varint.Encode(v) + post, |pre|) == Varint.Encode(v) + post;
    Varint.RoundTrip(v, post);
  }

  lemma SignedBack(x: int)
    requires -0x8000_0000_0000_0000 <= x < 0x8000_0000_0000_0000
    ensures Signed64(x % 0x1_0000_0000_0000_0000) == x
  {
  }

  /** The state of fillInCell when `pos` bytes of p are stored; `head` is the header with the child pointer. */
  ghost predicate Filling(pages: Pages, k: Kind, head: seq<Byte>, info: CellInfo, cell: seq<Byte>, p: seq<Byte>,
                          pos: nat, chain: seq<nat>)
  {
    && k.Valid() && |cell| == info.nSize && info.nHeader == |head| <= |cell| && cell[..|head|] == head
    && pos <= |p| && info.nLocal <= |p| && info.nHeader + info.nLocal <= |cell| && Distinct(chain)
    && (info.nLocal < |p| ==> info.iOverflow == info.nHeader + info.nLocal && info.iOverflow + 4 <= |cell|)
    && if chain == [] then pos <= info.nLocal && cell[|head|..|head| + pos] == p[..pos]
       else Spilled(pages, k, info, cell, p, pos, chain)
  }

  ghost predicate Spilled(pages: Pages, k: Kind, info: CellInfo, cell: seq<Byte>, p: seq<Byte>, pos: nat,
                          chain: seq<nat>)
    requires pos <= |p| && info.nLocal <= |p| && info.nHeader + info.nLocal <= |cell| && k.Valid()
  {
    && info.nLocal <= pos && info.nLocal < |p| && chain != [] && info.iOverflow + 4 <= |cell|
    && cell[info.nHeader..info.nHeader + info.nLocal] == p[..info.nLocal]
    && Get4(cell, info.iOverflow) == chain[0]
    && Holds(pages, k.usable - 4, chain, p[info.nLocal..pos])
  }

  /** spaceLeft of fillInCell. */
  ghost function SpaceLeft(k: Kind, info: CellInfo, p: seq<Byte>, pos: nat, chain: seq<nat>): (n: int)
    requires k.Valid() && pos <= |p|
  {
    if chain == [] || info.nLocal > pos then info.nLocal - pos
    else k.usable - 4 - LastFill(k.usable - 4, chain, p[info.nLocal..pos])
  }

  /** Storing local bytes. */
  lemma FillLocal(pages: Pages, k: Kind, head: seq<Byte>, info: CellInfo, cell: seq<Byte>, p: seq<Byte>, pos: nat,
                  n: nat, cell': seq<Byte>)
    requires Filling(pages, k, head, info, cell, p, pos, []) && pos + n <= info.nLocal
    requires cell' == Splice(cell, info.nHeader + pos, p[pos..pos + n])
    ensures Filling(pages, k, head, info, cell', p, pos + n, [])
  {
    forall i | 0 <= i < pos + n ensures cell'[|head| + i] == p[i] {
      if i < pos {
        assert cell[|head|..|head| + pos][i] == p[..pos][i];
      } else {
        assert cell'[|head| + pos..|head| + pos + n][i - pos] == p[pos..pos + n][i - pos];
      }
    }
  }

  /** Storing bytes on the last overflow page. */
  lemma FillOverflow(pages: Pages, k: Kind, head: seq<Byte>, info: CellInfo, cell: seq<Byte>, p: seq<Byte>, pos: nat,
                     chain: seq<nat>, n: nat, pages': Pages)
    requires Filling(pages, k, head, info, cell, p, pos, chain) && chain != [] && pos + n <= |p|
      && n <= SpaceLeft(k, info, p, pos, chain)
    requires Last(chain) in pages && |pages[Last(chain)]| >= k.usable
    requires pages' == pages[Last(chain) := Splice(pages[Last(chain)],
      4 + LastFill(k.usable - 4, chain, p[info.nLocal..pos]), p[pos..pos + n])]
    ensures Filling(pages', k, head, info, cell, p, pos + n, chain)
    ensures SpaceLeft(k, info, p, pos + n, chain) == SpaceLeft(k, info, p, pos, chain) - n
  {
    WriteLast(pages, pages', k.usable - 4, chain, p[info.nLocal..pos], p[pos..pos + n]);
    assert p[info.nLocal..pos + n] == p[info.nLocal..pos] + p[pos..pos + n];
  }

  /** The first overflow page. */
  lemma FirstOverflow(pages: Pages, k: Kind, head: seq<Byte>, info: CellInfo, cell: seq<Byte>, p: seq<Byte>, pg: nat,
                      cell': seq<Byte>, pages': Pages)
    requires Filling(pages, k, head, info, cell, p, info.nLocal, []) && info.nLocal < |p| && pg < 0x1_0000_0000
    requires cell' == Splice(cell, info.iOverflow, Enc4(pg)) && OnPage(pages', k.usable - 4, pg, 0, [])
    ensures Filling(pages', k, head, info, cell', p, info.nLocal, [pg])
    ensures SpaceLeft(k, info, p, info.nLocal, [pg]) == k.usable - 4
  {
    assert p[info.nLocal..info.nLocal] == [];
    assert cell[|head|..|head| + info.nLocal] == p[..info.nLocal];
    NumberStored(cell, info.iOverflow, pg, cell', |head|, info.nLocal);
  }

  /** An overflow page number written behind the header and the local bytes. */
  lemma NumberStored(cell: seq<Byte>, at: nat, pg: nat, cell': seq<Byte>, h: nat, n: nat)
    requires h + n == at && at + 4 <= |cell| && pg < 0x1_0000_0000 && cell' == Splice(cell, at, Enc4(pg))
    ensures |cell'| == |cell| && cell'[..h] == cell[..h] && cell'[h..h + n] == cell[h..h + n] && Get4(cell', at) == pg
  {
    assert cell'[at..at + 4] == Enc4(pg);
    assert forall i | 0 <= i < 4 :: cell'[at + i] == Enc4(pg)[i];
  }

  /** A further overflow page behind a full one. */
  lemma NextOverflow(pages: Pages, k: Kind, head: seq<Byte>, info: CellInfo, cell: seq<Byte>, p: seq<Byte>, pos: nat,
                     chain: seq<nat>, pg: nat, pages': Pages)
    requires Filling(pages, k, head, info, cell, p, pos, chain) && chain != [] && SpaceLeft(k, info, p, pos, chain) == 0
    requires pg !in chain && pg < 0x1_0000_0000 && Last(chain) in pages && |pages[Last(chain)]| >= k.usable
    requires forall x | x in chain && x != Last(chain) :: x in pages && x in pages' && pages'[x] == pages[x]
    requires Last(chain) in pages' && pages'[Last(chain)] == Splice(pages[Last(chain)], 0, Enc4(pg))
      && OnPage(pages', k.usable - 4, pg, 0, [])
    ensures Filling(pages', k, head, info, cell, p, pos, chain + [pg])
    ensures SpaceLeft(k, info, p, pos, chain + [pg]) == k.usable - 4
  {
    LinkLast(pages, pages', k.usable - 4, chain, p[info.nLocal..pos], pg);
  }

  /** A cell that begins with the header parses like the header. */
  lemma CellParses(k: Kind, c: Content, child: seq<Byte>, cell: seq<Byte>, head: seq<Byte>)
    requires ContentOk(k, c) && |child| == k.ChildPtrSize() && head == child + Header(k, c) && |head| <= |cell|
      && cell[..|head|] == head
    ensures Parse(k, cell) == Parse(k, head) && Parse(k, head).nPayload == |PayloadOf(k, c)|
      && Parse(k, head).nHeader == |head|
  {
    assert head == child + Header(k, c) + [];
    HeaderParses(k, c, child, []);
    ParseLocal(k, head, cell);
  }

  /** pos bytes are stored and `space` bytes are left where the next ones go. */
  ghost predicate Placed(pages: Pages, k: Kind, head: seq<Byte>, info: CellInfo, cell: seq<Byte>, p: seq<Byte>,
                         pos: nat, chain: seq<nat>, space: int) {
    && Filling(pages, k, head, info, cell, p, pos, chain) && space == SpaceLeft(k, info, p, pos, chain)
    && (chain != [] ==> space < k.usable - 4)
  }

  ghost predicate Prefixed(chain: seq<nat>, supply: seq<nat>) {
    |chain| <= |supply| && chain == supply[..|chain|]
  }

  /** The payload is src followed by zeros. */
  ghost predicate Source(p: seq<Byte>, src: seq<Byte>, nZero: nat) {
    p == src + Zeros(nZero)
  }

  lemma PrefixNext(chain: seq<nat>, supply: seq<nat>)
    requires Prefixed(chain, supply) && |chain| < |supply| && Distinct(supply)
    ensures supply[|chain|] !in chain && Prefixed(chain + [supply[|chain|]], supply)
  {
  }

  lemma InSupply(pages: Pages, k: Kind, chain: seq<nat>, supply: seq<nat>)
    requires Prefixed(chain, supply) && SupplyOk(pages, k, supply)
    ensures forall x | x in chain :: x in pages && |pages[x]| >= k.usable
  {
    forall x | x in chain ensures x in supply {
      var i :| 0 <= i < |chain| && chain[i] == x;
      assert supply[i] == x;
    }
  }

  lemma RoundNeeds(pages: Pages, k: Kind, head: seq<Byte>, info: CellInfo, cell: seq<Byte>, p: seq<Byte>, pos: nat,
                   chain: seq<nat>, space: int)
    requires Placed(pages, k, head, info, cell, p, pos, chain, space) && pos < |p|
    ensures space == 0 ==> |chain| < PagesFor(|p| - info.nLocal, k.usable - 4)
  {
    if space == 0 {
      NeedsMore(pages, k, head, info, cell, p, pos, chain);
    }
  }

  lemma PrefixGrown(a: Pages, b: Pages, c: Pages, s: seq<nat>, t: seq<nat>, supply: seq<nat>)
    requires SameBut(a, b, s) && SameBut(b, c, t) && Prefixed(s, supply) && Prefixed(t, supply) && |s| <= |t|
    ensures SameBut(a, c, t)
  {
    forall x | x in s ensures x in t {
      var i :| 0 <= i < |s| && s[i] == x;
      assert t[i] == supply[i];
    }
    SameButTrans(a, b, c, s, t);
  }

  lemma LoopEnds(pages: Pages, k: Kind, head: seq<Byte>, info: CellInfo, cell: seq<Byte>, p: seq<Byte>, chain: seq<nat>,
                 space: int, supply: seq<nat>)
    requires Placed(pages, k, head, info, cell, p, |p|, chain, space) && Prefixed(chain, supply)
      && SupplyOk(pages, k, supply)
    ensures AllFilled(pages, k, head, info, cell, p, chain) && |chain| == PagesFor(|p| - info.nLocal, k.usable - 4)
  {
    forall i | 0 <= i < |chain| ensures chain[i] > 0 {
      assert chain[i] == supply[i] && supply[i] in supply;
    }
    EndPages(pages, k, head, info, cell, p, chain);
  }

  /** The end of the loop of fillInCell. */
  ghost predicate AllFilled(pages: Pages, k: Kind, head: seq<Byte>, info: CellInfo, cell: seq<Byte>, p: seq<Byte>,
                            chain: seq<nat>) {
    && Filling(pages, k, head, info, cell, p, |p|, chain) && (forall i | 0 <= i < |chain| :: chain[i] > 0)
    && (chain != [] ==> SpaceLeft(k, info, p, |p|, chain) < k.usable - 4)
  }

  /** When everything is stored, the cell represents the payload. */
  lemma CellFilled(pages: Pages, k: Kind, c: Content, child: seq<Byte>, head: seq<Byte>, info: CellInfo,
                   cell: seq<Byte>, chain: seq<nat>)
    requires ContentOk(k, c) && |child| == k.ChildPtrSize() && head == child + Header(k, c) && info == Parse(k, head)
    requires AllFilled(pages, k, head, info, cell, PayloadOf(k, c), chain)
    ensures Represents(pages, k, cell, PayloadOf(k, c), chain) && Parse(k, cell).nKey == c.nKey
    ensures |child| <= |cell| && cell[..|child|] == child
  {
    CellParses(k, c, child, cell, head);
    assert head + [] == head;
    HeaderParses(k, c, child, []);
    Filled(pages, k, head, info, cell, PayloadOf(k, c), chain, PayloadOf(k, c)[info.nLocal..]);
  }

  lemma Filled(pages: Pages, k: Kind, head: seq<Byte>, info: CellInfo, cell: seq<Byte>, p: seq<Byte>, chain: seq<nat>,
               rest: seq<Byte>)
    requires Filling(pages, k, head, info, cell, p, |p|, chain) && info.nSize == |cell| && info.nPayload == |p|
      && rest == p[info.nLocal..]
    requires forall i | 0 <= i < |chain| :: chain[i] > 0
    requires chain != [] ==> SpaceLeft(k, info, p, |p|, chain) < k.usable - 4
    ensures Carries(pages, k, info, cell, p, chain)
  {
    assert p[info.nLocal..|p|] == rest;
    if chain == [] {
      assert info.nLocal == |p| && rest == [] && Holds(pages, k.usable - 4, chain, rest);
      assert p[..|p|] == p;
    } else {
      assert Holds(pages, k.usable - 4, chain, rest) && LastFill(k.usable - 4, chain, rest) > 0;
    }
  }

  /** When the place filled is full and bytes remain, more pages are needed than are in use. */
  lemma NeedsMore(pages: Pages, k: Kind, head: seq<Byte>, info: CellInfo, cell: seq<Byte>, p: seq<Byte>, pos: nat,
                  chain: seq<nat>)
    requires Filling(pages, k, head, info, cell, p, pos, chain) && pos < |p| && SpaceLeft(k, info, p, pos, chain) == 0
    ensures |chain| < PagesFor(|p| - info.nLocal, k.usable - 4)
  {
    var sz := k.usable - 4;
    if chain != [] {
      ChainBytes(pages, sz, chain, p[info.nLocal..pos]);
      assert (|chain| - 1) * sz + sz == |chain| * sz;
    }
    MorePages(|p| - info.nLocal, |chain|, sz);
  }

  /** At the end of the loop the least number of pages is in use. */
  lemma EndPages(pages: Pages, k: Kind, head: seq<Byte>, info: CellInfo, cell: seq<Byte>, p: seq<Byte>, chain: seq<nat>)
    requires Filling(pages, k, head, info, cell, p, |p|, chain)
    requires chain != [] ==> SpaceLeft(k, info, p, |p|, chain) < k.usable - 4
    ensures |chain| == PagesFor(|p| - info.nLocal, k.usable - 4)
  {
    assert p[info.nLocal..|p|] == p[info.nLocal..];
    PagesUsed(pages, k, info, p, chain);
  }

  /** A cell that represents its payload uses the least number of pages. */
  lemma PagesUsed(pages: Pages, k: Kind, info: CellInfo, p: seq<Byte>, chain: seq<nat>)
    requires k.Valid() && info.nLocal <= |p| && Holds(pages, k.usable - 4, chain, p[info.nLocal..])
    requires chain != [] ==> LastFill(k.usable - 4, chain, p[info.nLocal..]) > 0
    ensures |chain| == PagesFor(|p| - info.nLocal, k.usable - 4)
  {
    if chain != [] {
      ChainLength(pages, k.usable - 4, chain, p[info.nLocal..]);
      LastFillBelow(k.usable - 4, chain, p[info.nLocal..]);
    }
  }

  lemma {:induction false} LastFillBelow(sz: nat, chain: seq<nat>, rest: seq<Byte>)
    ensures LastFill(sz, chain, rest) <= |rest|
    decreases |chain|
  {
    if |chain| > 1 && |rest| >= sz {
      LastFillBelow(sz, chain[1..], rest[sz..]);
    }
  }

  ghost predicate SupplyOk(pages: Pages, k: Kind, supply: seq<nat>) {
    Distinct(supply) && forall p | p in supply :: p in pages && |pages[p]| >= k.usable && 1 < p < 0x1_0000_0000
  }

  /** The bytes stored next: from the source while it lasts, then zeros. */
  method NextBytes(src: seq<Byte>, pos: nat, n0: nat) returns (b: seq<Byte>)
    requires n0 > 0
    ensures 0 < |b| <= n0 && (pos + n0 <= |src| || |src| <= pos ==> |b| == n0)
    ensures forall nZero: nat | pos + n0 <= |src| + nZero ::
      pos + |b| <= |src + Zeros(nZero)| && b == (src + Zeros(nZero))[pos..pos + |b|]
  {
    var n := n0;
    if |src| > pos {
      if n > |src| - pos {
        n := |src| - pos;
      }
      b := src[pos..pos + n];
    } else {
      b := seq(n, _ => 0);
    }
  }

  /** Only pages of s may differ, and none changes its size. */
  ghost predicate SameBut(pages: Pages, pages': Pages, s: seq<nat>) {
    pages'.Keys == pages.Keys && forall x | x in pages ::
      |pages'[x]| == |pages[x]| && (x !in s ==> pages'[x] == pages[x])
  }

  lemma SameButOne(pages: Pages, s: seq<nat>, x: nat, page: seq<Byte>)
    requires x in pages && x in s && |page| == |pages[x]|
    ensures SameBut(pages, pages[x := page], s)
  {
  }

  lemma SameButTwo(pages: Pages, s: seq<nat>, x: nat, page: seq<Byte>, y: nat, page': seq<Byte>)
    requires x in pages && x in s && |page| == |pages[x]| && y in pages && y in s && |page'| == |pages[y]|
    ensures SameBut(pages, pages[x := page][y := page'], s)
  {
  }

  /** The pages of a file. */
  class PageFile {
    var pages: Pages

    /** Take the first overflow page into use: its number goes into the cell. */
    method AddFirst(k: Kind, ghost head: seq<Byte>, info: CellInfo, cell: seq<Byte>, ghost p: seq<Byte>, pg: nat)
      returns (cell': seq<Byte>)
      requires Filling(pages, k, head, info, cell, p, info.nLocal, []) && info.nLocal < |p|
      requires pg in pages && |pages[pg]| >= k.usable && 1 < pg < 0x1_0000_0000
      modifies this
      ensures Filling(pages, k, head, info, cell', p, info.nLocal, [pg])
        && SpaceLeft(k, info, p, info.nLocal, [pg]) == k.usable - 4
      ensures SameBut(old(pages), pages, [pg])
    {
      var page := Splice(pages[pg], 0, Enc4(0));
      var pages' := pages[pg := page];
      StartPage(pages', k.usable - 4, pg, pages[pg]);
      cell' := Splice(cell, info.iOverflow, Enc4(pg));
      FirstOverflow(pages, k, head, info, cell, p, pg, cell', pages');
      SameButOne(pages, [pg], pg, page);
      pages := pages';
    }

    /** Take a further overflow page into use: its number goes to the start of the page before. */
    method AddNext(k: Kind, ghost head: seq<Byte>, ghost info: CellInfo, ghost cell: seq<Byte>, ghost p: seq<Byte>,
                   ghost pos: nat, ghost chain: seq<nat>, prior: nat, pg: nat)
      requires Filling(pages, k, head, info, cell, p, pos, chain) && chain != []
        && SpaceLeft(k, info, p, pos, chain) == 0
      requires pg in pages && |pages[pg]| >= k.usable && 1 < pg < 0x1_0000_0000 && pg !in chain && prior == Last(chain)
      requires forall x | x in chain :: x in pages && |pages[x]| >= k.usable
      modifies this
      ensures Filling(pages, k, head, info, cell, p, pos, chain + [pg])
        && SpaceLeft(k, info, p, pos, chain + [pg]) == k.usable - 4
      ensures SameBut(old(pages), pages, chain + [pg])
    {
      var page := Splice(pages[pg], 0, Enc4(0));
      assert prior in chain;
      var priorPage := Splice(pages[prior], 0, Enc4(pg));
      var relinked: Pages := pages[prior := priorPage];
      var linked: Pages := relinked[pg := page];
      Linked(pages, k.usable - 4, chain, prior, priorPage, pg, page, linked);
      NextOverflow(pages, k, head, info, cell, p, pos, chain, pg, linked);
      pages := linked;
    }

    /** Take the next overflow page into use. */
    method AddPage(k: Kind, ghost head: seq<Byte>, info: CellInfo, cell: seq<Byte>, ghost p: seq<Byte>, ghost pos: nat,
                   chain: seq<nat>, pg: nat) returns (cell': seq<Byte>)
      requires Filling(pages, k, head, info, cell, p, pos, chain) && pos < |p| && SpaceLeft(k, info, p, pos, chain) == 0
      requires pg in pages && |pages[pg]| >= k.usable && 1 < pg < 0x1_0000_0000 && pg !in chain
      requires forall x | x in chain :: x in pages && |pages[x]| >= k.usable
      modifies this
      ensures Filling(pages, k, head, info, cell', p, pos, chain + [pg])
        && SpaceLeft(k, info, p, pos, chain + [pg]) == k.usable - 4
      ensures SameBut(old(pages), pages, chain + [pg])
    {
      if chain == [] {
        assert chain + [pg] == [pg];
        cell' := AddFirst(k, head, info, cell, p, pg);
      } else {
        assert Last(chain) in chain;
        cell' := cell;
        AddNext(k, head, info, cell, p, pos, chain, chain[|chain| - 1], pg);
      }
    }

    /** Store `b` at the present place. */
    method Store(k: Kind, ghost head: seq<Byte>, info: CellInfo, cell: seq<Byte>, ghost p: seq<Byte>, pos: nat,
                 chain: seq<nat>, spaceLeft: nat, b: seq<Byte>) returns (cell': seq<Byte>)
      requires Filling(pages, k, head, info, cell, p, pos, chain) && spaceLeft == SpaceLeft(k, info, p, pos, chain)
      requires |b| <= spaceLeft && pos + |b| <= |p| && b == p[pos..pos + |b|]
      requires forall x | x in chain :: x in pages && |pages[x]| >= k.usable
      modifies this
      ensures Filling(pages, k, head, info, cell', p, pos + |b|, chain)
        && SpaceLeft(k, info, p, pos + |b|, chain) == spaceLeft - |b|
      ensures SameBut(old(pages), pages, chain)
    {
      if chain == [] {
        cell' := Splice(cell, info.nHeader + pos, b);
        FillLocal(pages, k, head, info, cell, p, pos, |b|, cell');
      } else {
        cell' := cell;
        var last := chain[|chain| - 1];
        assert last in chain;
        var page := Splice(pages[last], k.usable - spaceLeft, b);
        var pages' := pages[last := page];
        SameButOne(pages, chain, last, page);
        FillOverflow(pages, k, head, info, cell, p, pos, chain, |b|, pages');
        pages := pages';
      }
    }

    /** One round of the loop of fillInCell. */
    method FillRound(k: Kind, ghost head: seq<Byte>, info: CellInfo, cell0: seq<Byte>, src: seq<Byte>,
                     ghost nZero: nat, ghost p: seq<Byte>, nPayload: nat, pos: nat, chain0: seq<nat>, space0: nat,
                     supply: seq<nat>)
      returns (rc: Rc, cell: seq<Byte>, n: nat, chain: seq<nat>, spaceLeft: nat)
      requires Placed(pages, k, head, info, cell0, p, pos, chain0, space0)
      requires Source(p, src, nZero) && pos < |p| == nPayload
      requires SupplyOk(pages, k, supply) && Prefixed(chain0, supply)
      modifies this
      ensures Prefixed(chain, supply) && |chain| >= |chain0|
      ensures SameBut(old(pages), pages, chain) && SupplyOk(pages, k, supply)
      ensures rc == if space0 == 0 && |chain0| == |supply| then Full else Ok
      ensures rc == Ok ==>
        0 < n && pos + n <= nPayload && Placed(pages, k, head, info, cell, p, pos + n, chain, spaceLeft)
    {
      n := 0;
      rc, cell, chain, spaceLeft := NextPlace(k, head, info, cell0, p, pos, chain0, space0, supply);
      if rc == Full {
        return;
      }
      ghost var before := pages;
      InSupply(pages, k, chain, supply);
      cell, n, spaceLeft := StoreNext(k, head, info, cell, src, nZero, p, nPayload, pos, chain, spaceLeft);
      SameButTrans(old(pages), before, pages, chain, chain);
    }

    /** As many of the next bytes as the place holds. */
    method StoreNext(k: Kind, ghost head: seq<Byte>, info: CellInfo, cell0: seq<Byte>, src: seq<Byte>,
                     ghost nZero: nat, ghost p: seq<Byte>, nPayload: nat, pos: nat, chain: seq<nat>, space0: nat)
      returns (cell: seq<Byte>, n: nat, spaceLeft: nat)
      requires Filling(pages, k, head, info, cell0, p, pos, chain) && space0 == SpaceLeft(k, info, p, pos, chain) > 0
      requires chain != [] ==> space0 <= k.usable - 4
      requires Source(p, src, nZero) && pos < |p| == nPayload
      requires forall x | x in chain :: x in pages && |pages[x]| >= k.usable
      modifies this
      ensures SameBut(old(pages), pages, chain)
      ensures 0 < n && pos + n <= nPayload && Placed(pages, k, head, info, cell, p, pos + n, chain, spaceLeft)
    {
      var room := if nPayload - pos > space0 then space0 else nPayload - pos;
      var b := NextBytes(src, pos, room);
      assert b == p[pos..pos + |b|];
      cell := Store(k, head, info, cell0, p, pos, chain, space0, b);
      n, spaceLeft := |b|, space0 - |b|;
    }

    /** The place for the next bytes: the present one, or a new page when that is full. */
    method NextPlace(k: Kind, ghost head: seq<Byte>, info: CellInfo, cell0: seq<Byte>, ghost p: seq<Byte>,
                     ghost pos: nat, chain0: seq<nat>, space0: nat, supply: seq<nat>)
      returns (rc: Rc, cell: seq<Byte>, chain: seq<nat>, spaceLeft: nat)
      requires Placed(pages, k, head, info, cell0, p, pos, chain0, space0) && pos < |p|
      requires SupplyOk(pages, k, supply) && Prefixed(chain0, supply)
      modifies this
      ensures Prefixed(chain, supply) && |chain| >= |chain0|
      ensures SameBut(old(pages), pages, chain) && SupplyOk(pages, k, supply)
      ensures rc == if space0 == 0 && |chain0| == |supply| then Full else Ok
      ensures rc == Ok ==> spaceLeft > 0 && Filling(pages, k, head, info, cell, p, pos, chain)
      ensures rc == Ok ==> spaceLeft == SpaceLeft(k, info, p, pos, chain) && (chain != [] ==> spaceLeft <= k.usable - 4)
    {
      cell, chain, spaceLeft, rc := cell0, chain0, space0, Ok;
      if spaceLeft == 0 {
        if |chain| == |supply| {
          rc := Full;
          return;
        }
        var pg := supply[|chain|];
        PrefixNext(chain, supply);
        InSupply(pages, k, chain, supply);
        cell := AddPage(k, head, info, cell, p, pos, chain, pg);
        chain, spaceLeft := chain + [pg], k.usable - 4;
      }
    }

    /** fillInCell: the image of a cell for content c, its overflow pages written.  `supply` are the pages that the
        allocator would return. */
    method FillInCell(k: Kind, c: Content, child: seq<Byte>, supply: seq<nat>)
      returns (rc: Rc, cell: seq<Byte>, chain: seq<nat>)
      requires ContentOk(k, c) && |child| == k.ChildPtrSize() && SupplyOk(pages, k, supply)
      modifies this
      ensures rc == Ok ==> Represents(pages, k, cell, PayloadOf(k, c), chain) && Parse(k, cell).nKey == c.nKey
      ensures rc == Ok ==> |child| <= |cell| && cell[..|child|] == child
      ensures |chain| <= |supply| && chain == supply[..|chain|] && SameBut(old(pages), pages, chain)
      ensures rc == (if |supply| < PagesNeeded(k, c) then Full else Ok)
      ensures |chain| == if rc == Full then |supply| else PagesNeeded(k, c)
    {
      var head := child + Header(k, c);
      var info := Parse(k, head);
      HeadInfo(k, c, child, head, info);
      rc, cell, chain := FillParts(k, c, head, info, supply);
      if rc == Ok {
        CellFilled(pages, k, c, child, head, info, cell, chain);
      }
    }

    /** The parts of a cell with that header: local bytes and overflow pages. */
    method FillParts(k: Kind, c: Content, head: seq<Byte>, info: CellInfo, supply: seq<nat>)
      returns (rc: Rc, cell: seq<Byte>, chain: seq<nat>)
      requires k.Valid() && HeadSizes(k, c, head, info) && SupplyOk(pages, k, supply)
      modifies this
      ensures rc == Ok ==> AllFilled(pages, k, head, info, cell, PayloadOf(k, c), chain)
      ensures Prefixed(chain, supply) && SameBut(old(pages), pages, chain)
      ensures rc == (if |supply| < PagesNeeded(k, c) then Full else Ok)
      ensures |chain| == if rc == Full then |supply| else PagesNeeded(k, c)
    {
      var src := if !k.intKey then c.key else if k.HasData() then c.data else [];
      ghost var nZero := if k.HasData() then c.nZero else 0;
      ghost var p := PayloadOf(k, c);
      SourceIs(k, c, src, nZero);
      cell := head + seq(info.nSize - |head|, _ => 0);
      HeadFilling(pages, k, head, info, cell, p);
      rc, cell, chain := FillLoop(k, head, info, cell, src, nZero, p, info.nPayload, supply);
    }

    /** The loop of fillInCell. */
    method FillLoop(k: Kind, ghost head: seq<Byte>, info: CellInfo, cell0: seq<Byte>, src: seq<Byte>, ghost nZero: nat,
                    ghost p: seq<Byte>, nPayload: nat, supply: seq<nat>)
      returns (rc: Rc, cell: seq<Byte>, chain: seq<nat>)
      requires Filling(pages, k, head, info, cell0, p, 0, []) && Source(p, src, nZero) && nPayload == |p|
        && SupplyOk(pages, k, supply)
      modifies this
      ensures |chain| <= |supply| && chain == supply[..|chain|] && SameBut(old(pages), pages, chain)
      ensures rc == (if |supply| < PagesFor(|p| - info.nLocal, k.usable - 4) then Full else Ok)
      ensures |chain| == if rc == Full then |supply| else PagesFor(|p| - info.nLocal, k.usable - 4)
      ensures rc == Ok ==> AllFilled(pages, k, head, info, cell, p, chain)
    {
      cell, chain := cell0, [];
      var pos: nat, spaceLeft: nat := 0, info.nLocal;
      while pos < nPayload
        invariant pos <= nPayload == |p| && Placed(pages, k, head, info, cell, p, pos, chain, spaceLeft)
        invariant SupplyOk(pages, k, supply) && Prefixed(chain, supply) && SameBut(old(pages), pages, chain)
        decreases nPayload - pos
      {
        ghost var before, chain0 := pages, chain;
        RoundNeeds(pages, k, head, info, cell, p, pos, chain, spaceLeft);
        var n;
        rc, cell, n, chain,
          spaceLeft := FillRound(k, head, info, cell, src, nZero, p, nPayload, pos, chain, spaceLeft, supply);
        PrefixGrown(old(pages), before, pages, chain0, chain, supply);
        if rc == Full {
          return;
        }
        pos := pos + n;
      }
      LoopEnds(pages, k, head, info, cell, p, chain, spaceLeft, supply);
      rc := Ok;
    }

    /** accessPayload as a read of amt bytes from offset. */
    method AccessPayload(k: Kind, cell: seq<Byte>, offset0: nat, amt0: nat, ghost p: seq<Byte>, ghost chain0: seq<nat>)
      returns (rc: Rc, buf: seq<Byte>)
      requires Represents(pages, k, cell, p, chain0)
      ensures rc == (if offset0 + amt0 > |p| then Corrupt else Ok)
      ensures rc == Ok ==> buf == p[offset0..offset0 + amt0]
    {
      rc, buf := AccessParsed(k, Parse(k, cell), cell, offset0, amt0, p, chain0);
    }

    method AccessParsed(k: Kind, info: CellInfo, cell: seq<Byte>, offset0: nat, amt0: nat, ghost p: seq<Byte>,
                        ghost chain0: seq<nat>)
      returns (rc: Rc, buf: seq<Byte>)
      requires k.Valid() && Carries(pages, k, info, cell, p, chain0)
      ensures rc == (if offset0 + amt0 > |p| then Corrupt else Ok)
      ensures rc == Ok ==> buf == p[offset0..offset0 + amt0]
    {
      if offset0 + amt0 > info.nPayload {
        return Corrupt, [];
      }
      var offset, amt;
      buf, offset, amt := ReadLocal(cell, info, offset0, amt0, p);
      if amt > 0 {
        var nextPage := Get4(cell, info.iOverflow);
        var more := ReadChain(k, nextPage, offset, amt, p[info.nLocal..], chain0);
        SubSlice(p, info.nLocal, |p|, offset, offset + amt);
        JoinSlices(p, offset0, offset0 + |buf|, offset0 + amt0, buf, more);
        buf := buf + more;
      }
      rc := Ok;
    }

    /** The loop of accessPayload over the overflow pages. */
    method ReadChain(k: Kind, first: nat, offset0: nat, amt0: nat, ghost rest0: seq<Byte>, ghost chain0: seq<nat>)
      returns (buf: seq<Byte>)
      requires k.Valid() && Holds(pages, k.usable - 4, chain0, rest0) && first == Head(chain0)
        && offset0 + amt0 <= |rest0|
      ensures buf == rest0[offset0..offset0 + amt0]
    {
      var nextPage: nat, offset: nat, amt: nat := first, offset0, amt0;
      ghost var chain, rest := chain0, rest0;
      buf := [];
      while amt > 0
        invariant Holds(pages, k.usable - 4, chain, rest) && (amt > 0 ==> nextPage == Head(chain))
          && offset + amt <= |rest|
        invariant buf + rest[offset..offset + amt] == rest0[offset0..offset0 + amt0]
        decreases |chain|, amt
      {
        var got;
        got, nextPage, offset, amt, chain, rest := ReadPage(k, nextPage, offset, amt, rest, chain);
        Regroup(buf, got, rest[offset..offset + amt]);
        buf := buf + got;
      }
    }

    /** One round of that loop: skip a page, or copy from it. */
    method ReadPage(k: Kind, pg: nat, offset: nat, amt: nat, ghost rest: seq<Byte>, ghost chain: seq<nat>)
      returns (got: seq<Byte>, next: nat, offset': nat, amt': nat, ghost chain': seq<nat>, ghost rest': seq<Byte>)
      requires k.Valid() && Holds(pages, k.usable - 4, chain, rest) && pg == Head(chain) && 0 < amt
        && offset + amt <= |rest|
      ensures Holds(pages, k.usable - 4, chain', rest') && (amt' > 0 ==> next == Head(chain'))
        && offset' + amt' <= |rest'|
      ensures got + rest'[offset'..offset' + amt'] == rest[offset..offset + amt]
      ensures |chain'| < |chain| || (chain' == chain && amt' < amt)
    {
      var sz := k.usable - 4;
      var page := pages[pg];
      next := Get4(page, 0);
      if offset >= sz {
        SubSlice(rest, sz, |rest|, offset - sz, offset - sz + amt);
        return [], next, offset - sz, amt, chain[1..], rest[sz..];
      }
      var a := if amt + offset > sz then sz - offset else amt;
      PageBytes(page, rest, if |chain| > 1 then sz else |rest|, offset, a);
      got := page[4 + offset..4 + offset + a];
      if amt > a {
        SubSlice(rest, sz, |rest|, 0, amt - a);
        JoinSlices(rest, offset, offset + a, offset + amt, got, rest[sz..][0..amt - a]);
        return got, next, 0, amt - a, chain[1..], rest[sz..];
      }
      return got, next, 0, 0, chain, rest;
    }

    /** What fillInCell stored is what accessPayload reads, for every range. */
    method RoundTrip(k: Kind, c: Content, child: seq<Byte>, supply: seq<nat>, offset: nat, amt: nat)
      returns (rc: Rc, buf: seq<Byte>)
      requires ContentOk(k, c) && |child| == k.ChildPtrSize() && SupplyOk(pages, k, supply)
      modifies this
      ensures rc == if |supply| < PagesNeeded(k, c) then Full
        else if offset + amt > |PayloadOf(k, c)| then Corrupt else Ok
      ensures rc == Ok ==> buf == PayloadOf(k, c)[offset..offset + amt]
    {
      var cell, chain;
      rc, cell, chain := FillInCell(k, c, child, supply);
      buf := [];
      if rc == Ok {
        rc, buf := AccessPayload(k, cell, offset, amt, PayloadOf(k, c), chain);
      }
    }

    /** The loop of clearCell: exactly the overflow pages of the cell are freed, in order. */
    method ClearCell(k: Kind, cell: seq<Byte>, nPage: nat, ghost p: seq<Byte>, ghost chain: seq<nat>)
      returns (rc: Rc, freed: seq<nat>)
      requires Represents(pages, k, cell, p, chain) && forall i | 0 <= i < |chain| :: 2 <= chain[i] <= nPage
      ensures rc == Ok && freed == chain
    {
      rc, freed := ClearParsed(k, Parse(k, cell), cell, nPage, p, chain);
    }

    method ClearParsed(k: Kind, info: CellInfo, cell: seq<Byte>, nPage: nat, ghost p: seq<Byte>, ghost chain: seq<nat>)
      returns (rc: Rc, freed: seq<nat>)
      requires k.Valid() && info == Parse(k, cell) && Carries(pages, k, info, cell, p, chain)
      requires forall i | 0 <= i < |chain| :: 2 <= chain[i] <= nPage
      ensures rc == Ok && freed == chain
    {
      if info.iOverflow == 0 {
        LocalOnly(k, cell);
        return Ok, [];
      }
      SpilledInfo(k, cell);
      var sz := k.usable - 4;
      ChainLength(pages, sz, chain, p[info.nLocal..]);
      var nOvfl := (info.nPayload - info.nLocal + sz - 1) / sz;
      rc, freed := ClearLoop(Get4(cell, info.iOverflow), nOvfl, nPage, sz, p[info.nLocal..], chain);
    }

    method ClearLoop(first: nat, n: nat, nPage: nat, ghost sz: nat, ghost rest: seq<Byte>, ghost chain: seq<nat>)
      returns (rc: Rc, freed: seq<nat>)
      requires Holds(pages, sz, chain, rest) && |chain| == n && (n > 0 ==> first == chain[0])
      requires forall i | 0 <= i < |chain| :: 2 <= chain[i] <= nPage
      ensures rc == Ok && freed == chain
    {
      var ovfl, nOvfl := first, n;
      freed := [];
      ghost var i := 0;
      while nOvfl > 0
        invariant 0 <= i <= |chain| && nOvfl == |chain| - i && freed == chain[..i]
        invariant i < |chain| ==> ovfl == chain[i]
      {
        nOvfl := nOvfl - 1;
        var iNext := 0;
        if ovfl < 2 || ovfl > nPage {
          return Corrupt, freed;
        }
        HoldsPages(pages, sz, chain, rest, i);
        if nOvfl > 0 {
          iNext := Get4(pages[ovfl], 0);
        }
        freed := freed + [ovfl];
        i, ovfl := i + 1, iNext;
      }
      rc := Ok;
    }
  }

  /** A cell without an overflow page number keeps all its payload. */
  lemma LocalOnly(k: Kind, cell: seq<Byte>)
    requires k.Valid() && Parse(k, cell).iOverflow == 0
    ensures Parse(k, cell).nLocal == Parse(k, cell).nPayload
  {
  }

  lemma SpilledInfo(k: Kind, cell: seq<Byte>)
    requires k.Valid() && Parse(k, cell).iOverflow != 0
    ensures Parse(k, cell).nLocal < Parse(k, cell).nPayload
  {
    LocalBounds(k, Parse(k, cell).nPayload);
  }

  lemma SubSlice<T>(s: seq<T>, a: nat, b: nat, x: nat, y: nat)
    requires a <= b <= |s| && x <= y <= b - a
    ensures s[a..b][x..y] == s[a + x..a + y]
  {
    forall i | 0 <= i < y - x ensures s[a..b][x..y][i] == s[a + x..a + y][i] {
    }
  }

  lemma Regroup<T>(a: seq<T>, b: seq<T>, c: seq<T>)
    ensures a + b + c == a + (b + c)
  {
  }

  lemma JoinSlices<T>(s: seq<T>, a: nat, b: nat, c: nat, left: seq<T>, right: seq<T>)
    requires a <= b <= c <= |s| && left == s[a..b] && right == s[b..c]
    ensures left + right == s[a..c]
  {
  }

  /** The part of a read that is on the b-tree page, and what remains to be read from the overflow pages. */
  method ReadLocal(cell: seq<Byte>, info: CellInfo, offset0: nat, amt0: nat, ghost p: seq<Byte>)
    returns (buf: seq<Byte>, offset: nat, amt: nat)
    requires info.nLocal <= |p| && info.nHeader + info.nLocal <= |cell|
      && cell[info.nHeader..info.nHeader + info.nLocal] == p[..info.nLocal]
    requires offset0 + amt0 <= |p|
    ensures |buf| + amt == amt0 && buf == p[offset0..offset0 + |buf|]
      && (amt > 0 ==> info.nLocal + offset == offset0 + |buf|)
  {
    if offset0 < info.nLocal {
      var a := if amt0 + offset0 > info.nLocal then info.nLocal - offset0 else amt0;
      LocalBytes(cell, info, p, offset0, a);
      return cell[info.nHeader + offset0..info.nHeader + offset0 + a], 0, amt0 - a;
    }
    return [], offset0 - info.nLocal, amt0;
  }

  lemma LocalBytes(cell: seq<Byte>, info: CellInfo, p: seq<Byte>, offset: nat, a: nat)
    requires info.nLocal <= |p| && info.nHeader + info.nLocal <= |cell|
      && cell[info.nHeader..info.nHeader + info.nLocal] == p[..info.nLocal]
    requires offset + a <= info.nLocal
    ensures cell[info.nHeader + offset..info.nHeader + offset + a] == p[offset..offset + a]
  {
    SubSlice(cell, info.nHeader, info.nHeader + info.nLocal, offset, offset + a);
    SubSlice(p, 0, info.nLocal, offset, offset + a);
    assert p[0..info.nLocal] == p[..info.nLocal];
  }

  lemma PageBytes(page: seq<Byte>, rest: seq<Byte>, here: nat, offset: nat, a: nat)
    requires here <= |rest| && 4 + here <= |page| && page[4..4 + here] == rest[..here] && offset + a <= here
    ensures page[4 + offset..4 + offset + a] == rest[offset..offset + a]
  {
    SubSlice(page, 4, 4 + here, offset, offset + a);
    SubSlice(rest, 0, here, offset, offset + a);
    assert rest[0..here] == rest[..here];
  }

  lemma SameButTrans(a: Pages, b: Pages, c: Pages, s: seq<nat>, t: seq<nat>)
    requires SameBut(a, b, s) && SameBut(b, c, t) && forall x | x in s :: x in t
    ensures SameBut(a, c, t)
  {
  }

  lemma SourceIs(k: Kind, c: Content, src: seq<Byte>, nZero: nat)
    requires src == if !k.intKey then c.key else if k.HasData() then c.data else []
    requires nZero == if k.HasData() then c.nZero else 0
    ensures Source(PayloadOf(k, c), src, nZero)
  {
  }

  /** What the header of a cell says about its sizes. */
  ghost predicate HeadSizes(k: Kind, c: Content, head: seq<Byte>, info: CellInfo)
    requires k.Valid()
  {
    && info.nPayload == |PayloadOf(k, c)| && info.nLocal == LocalAmount(k, |PayloadOf(k, c)|)
    && info.nHeader == |head| && Roomy(k, info)
  }

  lemma HeadInfo(k: Kind, c: Content, child: seq<Byte>, head: seq<Byte>, info: CellInfo)
    requires ContentOk(k, c) && |child| == k.ChildPtrSize() && head == child + Header(k, c) && info == Parse(k, head)
    ensures HeadSizes(k, c, head, info)
  {
    assert head == child + Header(k, c) + [];
    HeaderParses(k, c, child, []);
    ParseRoomy(k, head);
  }

  /** A parsed cell has room for what it says. */
  ghost predicate Roomy(k: Kind, info: CellInfo)
    requires k.Valid()
  {
    && info.nLocal <= info.nPayload && info.nHeader + info.nLocal <= info.nSize
    && (info.nLocal < info.nPayload ==>
      info.iOverflow == info.nHeader + info.nLocal && info.iOverflow + 4 <= info.nSize)
  }

  lemma ParseRoomy(k: Kind, c: seq<Byte>)
    requires k.Valid()
    ensures Roomy(k, Parse(k, c)) && Parse(k, c).nLocal == LocalAmount(k, Parse(k, c).nPayload)
  {
    LocalBounds(k, Parse(k, c).nPayload);
  }

  lemma HeadFilling(pages: Pages, k: Kind, head: seq<Byte>, info: CellInfo, cell: seq<Byte>, p: seq<Byte>)
    requires k.Valid() && Roomy(k, info) && info.nHeader == |head| && info.nPayload == |p|
    requires cell == head + seq(info.nSize - |head|, _ => 0)
    ensures Filling(pages, k, head, info, cell, p, 0, [])
  {
    assert cell[..|head|] == head && cell[|head|..|head|] == [] == p[..0];
  }

  lemma Linked(pages: Pages, sz: nat, chain: seq<nat>, prior: nat, priorPage: seq<Byte>, pg: nat, page: seq<Byte>,
               linked: Pages)
    requires prior in pages && pg in pages && prior in chain && pg !in chain && forall x | x in chain :: x in pages
    requires |priorPage| == |pages[prior]| && |pages[pg]| >= 4 + sz && page == Splice(pages[pg], 0, Enc4(0))
    requires linked == pages[prior := priorPage][pg := page]
    ensures SameBut(pages, linked, chain + [pg]) && OnPage(linked, sz, pg, 0, [])
    ensures (forall x | x in chain && x != prior :: x in linked && linked[x] == pages[x]) && prior in linked
      && linked[prior] == priorPage
  {
    StartPage(linked, sz, pg, pages[pg]);
    SameButTwo(pages, chain + [pg], prior, priorPage, pg, page);
  }

  lemma StartPage(pages: Pages, sz: nat, pg: nat, old': seq<Byte>)
    requires |old'| >= 4 + sz && pg in pages && pages[pg] == Splice(old', 0, Enc4(0))
    ensures OnPage(pages, sz, pg, 0, [])
  {
    RelinkPage(old', [], 0);
  }
}
