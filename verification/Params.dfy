/** Query strings: printing a multimap of parameters and reading it back. */
module Params {
  import opened Bytes
  import opened Text
  import opened Query

  type Pair = (string, string)

  // ----- The multimap -----

  /** The order of the keys: lexicographic, by bytes. */
  predicate Less(a: string, b: string) {
    if b == "" then false
    else if a == "" then true
    else if a[0] != b[0] then a[0] < b[0]
    else Less(a[1..], b[1..])
  }

  /** A multimap is its pairs in the order of their keys, equal keys in the order they were added. */
  predicate Sorted(ps: seq<Pair>) { forall i, j :: 0 <= i < j < |ps| ==> !Less(ps[j].0, ps[i].0) }

  function Emplace(ps: seq<Pair>, p: Pair): seq<Pair>
    decreases |ps|
  {
    if ps == [] then [p]
    else if Less(p.0, ps[0].0) then [p] + ps
    else [ps[0]] + Emplace(ps[1..], p)
  }

  lemma {:induction false} EmplaceLast(ps: seq<Pair>, p: Pair)
    requires forall i :: 0 <= i < |ps| ==> !Less(p.0, ps[i].0)
    ensures Emplace(ps, p) == ps + [p]
    decreases |ps|
  {
    if ps != [] {
      EmplaceLast(ps[1..], p);
    }
  }

  /** The values of a key, in order. */
  function ValuesOf(ps: seq<Pair>, key: string): seq<string>
    decreases |ps|
  {
    if ps == [] then [] else (if ps[0].0 == key then [ps[0].1] else []) + ValuesOf(ps[1..], key)
  }

  lemma {:induction false} LessOrder(a: string, b: string, c: string)
    ensures !Less(a, a) && (Less(a, b) && Less(b, c) ==> Less(a, c))
    decreases |a|
  {
    if a != "" {
      LessOrder(a[1..], if b == "" then "" else b[1..], if c == "" then "" else c[1..]);
    }
  }

  lemma {:induction false} NoValues(ps: seq<Pair>, key: string)
    requires forall i :: 0 <= i < |ps| ==> ps[i].0 != key
    ensures ValuesOf(ps, key) == []
    decreases |ps|
  {
    if ps != [] {
      NoValues(ps[1..], key);
    }
  }

  lemma {:induction false} EmplaceHolds(ps: seq<Pair>, p: Pair)
    ensures forall q :: q in Emplace(ps, p) <==> q == p || q in ps
    decreases |ps|
  {
    if ps != [] {
      EmplaceHolds(ps[1..], p);
      assert ps == [ps[0]] + ps[1..];
    }
  }

  lemma BeforeAll(ps: seq<Pair>, p: Pair)
    requires Sorted(ps) && ps != [] && Less(p.0, ps[0].0)
    ensures forall j :: 0 <= j < |ps| ==> !Less(ps[j].0, p.0) && ps[j].0 != p.0
    ensures Sorted([p] + ps)
  {
    hide Less;
    forall j | 0 <= j < |ps| ensures !Less(ps[j].0, p.0) && ps[j].0 != p.0 {
      LessOrder(ps[0].0, p.0, ps[0].0);
      LessOrder(ps[j].0, p.0, ps[0].0);
    }
  }

  /** Putting in a pair keeps the order of the keys and adds its value after those the key has already. */
  lemma {:induction false} EmplaceAdds(ps: seq<Pair>, p: Pair, key: string)
    requires Sorted(ps)
    ensures Sorted(Emplace(ps, p))
    ensures ValuesOf(Emplace(ps, p), key) == ValuesOf(ps, key) + if key == p.0 then [p.1] else []
    decreases |ps|
  {
    hide Less;
    if ps == [] {
      assert [p][1..] == [];
    } else if Less(p.0, ps[0].0) {
      BeforeAll(ps, p);
      assert ([p] + ps)[1..] == ps;
      if key == p.0 {
        NoValues(ps, key);
      }
    } else {
      var rest := Emplace(ps[1..], p);
      EmplaceAdds(ps[1..], p, key);
      EmplaceHolds(ps[1..], p);
      forall j | 0 <= j < |rest| ensures !Less(rest[j].0, ps[0].0) {
        assert rest[j] in rest;
      }
      assert ([ps[0]] + rest)[1..] == rest;
    }
  }

  function EmplaceAll(ps: seq<Pair>, qs: seq<Pair>): seq<Pair>
    decreases |qs|
  {
    if qs == [] then ps else EmplaceAll(Emplace(ps, qs[0]), qs[1..])
  }

  lemma {:induction false} EmplaceSorted(ps: seq<Pair>, qs: seq<Pair>)
    requires Sorted(ps + qs)
    ensures EmplaceAll(ps, qs) == ps + qs
    decreases |qs|
  {
    if qs == [] {
      assert ps + qs == ps;
    } else {
      var all := ps + qs;
      forall i | 0 <= i < |ps| ensures !Less(qs[0].0, ps[i].0) {
        assert all[|ps|] == qs[0] && all[i] == ps[i];
      }
      EmplaceLast(ps, qs[0]);
      assert (ps + [qs[0]]) + qs[1..] == all;
      EmplaceSorted(ps + [qs[0]], qs[1..]);
    }
  }

  // ----- Printing -----

  function Item(p: Pair): string
    requires IsByteString(p.1)
  {
    p.0 + "=" + EncodeParam(p.1)
  }

  predicate Bytewise(ps: seq<Pair>) { forall i :: 0 <= i < |ps| ==> IsByteString(ps[i].1) }

  function Rest(ps: seq<Pair>): string
    requires Bytewise(ps)
  {
    if ps == [] then "" else "&" + Item(ps[0]) + Rest(ps[1..])
  }

  function QueryText(ps: seq<Pair>): string
    requires Bytewise(ps)
  {
    if ps == [] then "" else Item(ps[0]) + Rest(ps[1..])
  }

  /** What is still to be printed at parameter `i`. */
  function Tail(ps: seq<Pair>, i: nat): string
    requires Bytewise(ps) && i <= |ps|
  {
    if i == 0 then QueryText(ps) else Rest(ps[i..])
  }

  lemma NextItem(ps: seq<Pair>, i: nat, query: string)
    requires Bytewise(ps) && i < |ps|
    ensures query + Tail(ps, i) == (query + ((if i == 0 then "" else "&") + Item(ps[i]))) + Tail(ps, i + 1)
  {
    hide Item;
    var head := (if i == 0 then "" else "&") + Item(ps[i]);
    assert ps[i..][0] == ps[i] && ps[i..][1..] == ps[i + 1..];
    assert "" + Item(ps[i]) == Item(ps[i]);
    assert Tail(ps, i) == head + Tail(ps, i + 1);
    Assoc(query, head, Tail(ps, i + 1));
  }

  lemma NothingLeft(ps: seq<Pair>, query: string)
    requires Bytewise(ps)
    ensures query + Tail(ps, |ps|) == query && "" + Tail(ps, 0) == QueryText(ps)
  {
  }

  method ParamsToQueryStr(ps: seq<Pair>) returns (query: string)
    requires Bytewise(ps)
    ensures query == QueryText(ps)
  {
    hide EncodeParam, QueryText, Tail, IsByteString;
    query := "";
    NothingLeft(ps, query);
    for i := 0 to |ps|
      invariant query + Tail(ps, i) == QueryText(ps)
    {
      NextItem(ps, i, query);
      ghost var was := query;
      if i > 0 {
        query := query + "&";
      }
      query := query + ps[i].0;
      query := query + "=";
      var value := EncodeParamLoop(ps[i].1);
      query := query + value;
      assert query == was + ((if i == 0 then "" else "&") + Item(ps[i]));
    }
    NothingLeft(ps, query);
  }

  // ----- Reading -----

  function Decoded(ps: seq<Pair>): (r: seq<Pair>)
    ensures |r| == |ps|
    ensures forall i :: 0 <= i < |ps| ==> r[i] == (DecodeUrl(ps[i].0, true), DecodeUrl(ps[i].1, true))
  {
    seq(|ps|, i requires 0 <= i < |ps| => (DecodeUrl(ps[i].0, true), DecodeUrl(ps[i].1, true)))
  }

  /** The parameters with those of a text added. */
  function Parsed(params: seq<Pair>, s: string): seq<Pair> { EmplaceAll(params, Decoded(RawPairs(Pieces(s, '&'), {}))) }

  method ParseQueryText(s: string, params: seq<Pair>) returns (r: seq<Pair>)
    ensures r == Parsed(params, s)
    ensures forall ps :: Says(s, ps) ==> r == EmplaceAll(params, ps)
  {
    hide Pieces, DecodeUrl, EmplaceAll, Emplace, KeyValue, Decoded, Says;
    forall ps | Says(s, ps) ensures Parsed(params, s) == EmplaceAll(params, ps) {
      SaysParsed(params, s, ps);
    }
    hide Parsed;
    r := params;
    var cache := {};
    var kvs := Split(s, '&');
    assert kvs[0..] == kvs;
    ParsedPieces(params, s);
    for i := 0 to |kvs|
      invariant Parsed(params, s) == EmplaceAll(r, Decoded(RawPairs(kvs[i..], cache)))
    {
      NextPiece(r, kvs, i, cache);
      if kvs[i] !in cache {
        cache := cache + {kvs[i]};
        var key, val := SplitKeyValue(kvs[i]);
        if key != "" {
          var k := DecodeUrlLoop(key, true);
          var v := DecodeUrlLoop(val, true);
          r := Emplace(r, (k, v));
        }
      }
    }
    NoPieces(r, kvs, cache);
  }

  lemma ParsedPieces(params: seq<Pair>, s: string)
    ensures Parsed(params, s) == EmplaceAll(params, Decoded(RawPairs(Pieces(s, '&'), {})))
  {
  }

  lemma NextPiece(r: seq<Pair>, kvs: seq<string>, i: nat, cache: set<string>)
    requires i < |kvs|
    ensures var rest := kvs[i + 1..];
            EmplaceAll(r, Decoded(RawPairs(kvs[i..], cache)))
            == if kvs[i] in cache then EmplaceAll(r, Decoded(RawPairs(rest, cache)))
               else if KeyValue(kvs[i]).None? then EmplaceAll(r, Decoded(RawPairs(rest, cache + {kvs[i]})))
               else var (k, v) := KeyValue(kvs[i]).value;
                    EmplaceAll(Emplace(r, (DecodeUrl(k, true), DecodeUrl(v, true))), Decoded(RawPairs(rest, cache + {kvs[i]})))
  {
    hide KeyValue, DecodeUrl, Emplace;
    assert kvs[i..][0] == kvs[i] && kvs[i..][1..] == kvs[i + 1..];
    if kvs[i] !in cache {
      var more := RawPairs(kvs[i + 1..], cache + {kvs[i]});
      if KeyValue(kvs[i]).None? {
        assert [] + more == more;
      } else {
        var raw := [KeyValue(kvs[i]).value] + more;
        assert Decoded(raw)[1..] == Decoded(more);
      }
    }
  }

  lemma NoPieces(r: seq<Pair>, kvs: seq<string>, cache: set<string>)
    ensures EmplaceAll(r, Decoded(RawPairs(kvs[|kvs|..], cache))) == r
  {
  }

  // ----- What a form says -----

  /** A key and a value as they are written: with no separator in them, and no blank around them. */
  predicate FormItem(t: Pair) {
    t.0 != "" && IsTrimmed(t.0) && IsTrimmed(t.1) && '&' !in t.0 && '=' !in t.0 && '&' !in t.1 && '=' !in t.1
  }

  function FormText(ts: seq<Pair>): string {
    if ts == [] then "" else ts[0].0 + "=" + ts[0].1 + if |ts| == 1 then "" else "&" + FormText(ts[1..])
  }

  /** Keys and values written one by one, in any of the ways in which a form writes bytes. */
  predicate Writes(ts: seq<Pair>, ps: seq<Pair>) {
    |ts| == |ps|
    && forall i :: 0 <= i < |ts| ==>
         FormItem(ts[i]) && Renders(ps[i].0, ts[i].0, true) && Renders(ps[i].1, ts[i].1, true)
  }

  predicate NoneTwice(ts: seq<Pair>) { forall i, j :: 0 <= i < j < |ts| ==> ts[i] != ts[j] }

  ghost predicate Says(s: string, ps: seq<Pair>) { exists ts :: Writes(ts, ps) && NoneTwice(ts) && s == FormText(ts) }

  lemma FormItemReads(t: Pair)
    requires FormItem(t)
    ensures var x := t.0 + "=" + t.1; '&' !in x && NonEmpty(Trim(x)) == [x] && KeyValue(x) == Some(t)
  {
    hide Trim, Pieces;
    TrimOfTrimmed(t.0 + "=" + t.1);
    TrimOfTrimmed(t.0);
    TrimOfTrimmed(t.1);
    PiecesOf(t.0, '=', t.1);
    PiecesOf(t.1, '=', "");
  }

  function FormPieces(ts: seq<Pair>): seq<string> { if ts == [] then [] else [ts[0].0 + "=" + ts[0].1] + FormPieces(ts[1..]) }

  lemma {:induction false} FormSplits(ts: seq<Pair>)
    requires forall i :: 0 <= i < |ts| ==> FormItem(ts[i])
    ensures Pieces(FormText(ts), '&') == FormPieces(ts)
    decreases |ts|
  {
    hide Pieces, Trim, FormItem;
    if ts == [] {
      EmptyPieces();
    } else {
      var x := ts[0].0 + "=" + ts[0].1;
      FormItemReads(ts[0]);
      if |ts| == 1 {
        PiecesOf(x, '&', "");
        assert x + "" == x;
      } else {
        FormSplits(ts[1..]);
        PiecesOf(x, '&', FormText(ts[1..]));
        assert FormText(ts) == x + ['&'] + FormText(ts[1..]);
      }
    }
  }

  lemma {:induction false} FormRaw(ts: seq<Pair>, seen: set<string>)
    requires forall i :: 0 <= i < |ts| ==> FormItem(ts[i]) && ts[i].0 + "=" + ts[i].1 !in seen
    requires NoneTwice(ts)
    ensures RawPairs(FormPieces(ts), seen) == ts
    decreases |ts|
  {
    hide KeyValue, FormItem;
    if ts != [] {
      var x, rest := ts[0].0 + "=" + ts[0].1, ts[1..];
      FormItemReads(ts[0]);
      forall i | 0 <= i < |rest| ensures rest[i].0 + "=" + rest[i].1 != x {
        FormItemReads(ts[i + 1]);
        assert rest[i] == ts[i + 1] != ts[0];
      }
      FormRaw(rest, seen + {x});
      assert [ts[0]] + rest == ts;
    }
  }

  /** A text that says some pairs adds exactly these, in order. */
  lemma SaysParsed(params: seq<Pair>, s: string, ps: seq<Pair>)
    requires Says(s, ps)
    ensures Parsed(params, s) == EmplaceAll(params, ps)
  {
    hide EmplaceAll, Pieces, RawPairs, FormText, Renders, DecodeUrl, FormItem, Decoded;
    var ts: seq<Pair> :| Writes(ts, ps) && NoneTwice(ts) && s == FormText(ts);
    FormSplits(ts);
    FormRaw(ts, {});
    forall i | 0 <= i < |ps| ensures Decoded(ts)[i] == ps[i] {
      RenderedDecodes(ps[i].0, ts[i].0, true);
      RenderedDecodes(ps[i].1, ts[i].1, true);
    }
    assert Decoded(ts) == ps;
  }

  // ----- The round trip -----

  /** A key that printing and reading leave alone. */
  predicate KeyOk(k: string) { k != "" && IsTrimmed(k) && '&' !in k && '=' !in k && DecodeUrl(k, true) == k }

  lemma {:induction false} PlainKey(k: string)
    requires '%' !in k && '+' !in k
    ensures DecodeUrl(k, true) == k
  {
    if k != "" {
      PlainKey(k[1..]);
    }
  }

  predicate KeysOk(ps: seq<Pair>) { forall i :: 0 <= i < |ps| ==> KeyOk(ps[i].0) }

  /** Identical pairs are kept once, where they come first. */
  function Dedup(ps: seq<Pair>, seen: set<Pair>): (r: seq<Pair>)
    ensures forall q :: q in r ==> q in ps
    decreases |ps|
  {
    if ps == [] then []
    else if ps[0] in seen then Dedup(ps[1..], seen)
    else [ps[0]] + Dedup(ps[1..], seen + {ps[0]})
  }

  lemma {:induction false} DedupSorted(ps: seq<Pair>, seen: set<Pair>)
    requires Sorted(ps)
    ensures Sorted(Dedup(ps, seen))
    decreases |ps|
  {
    if ps != [] {
      DedupSorted(ps[1..], seen);
      DedupSorted(ps[1..], seen + {ps[0]});
      var more := Dedup(ps[1..], seen + {ps[0]});
      forall j | 0 <= j < |more| ensures !Less(more[j].0, ps[0].0) {
        assert more[j] in more && more[j] in ps[1..];
        var i :| 0 <= i < |ps[1..]| && ps[1..][i] == more[j];
        assert ps[i + 1] == more[j];
      }
    }
  }

  predicate CleanByte(c: char) { c != '&' && c != '=' && !IsBlank(c) }

  lemma CleanStep(c: char)
    requires c as int < 256
    ensures forall i :: 0 <= i < |EncodeByte(c)| ==> CleanByte(EncodeByte(c)[i])
  {
    var d, e := HexDigit(c as int / 16), HexDigit(c as int % 16);
    assert HexValue('&').None? && HexValue('=').None?;
    assert CleanByte(d) && CleanByte(e);
  }

  lemma {:induction false} EncodedClean(v: string)
    requires IsByteString(v)
    ensures forall i :: 0 <= i < |EncodeParam(v)| ==> CleanByte(EncodeParam(v)[i])
    ensures EncodeParam(v) == "" <==> v == ""
  {
    hide CleanByte, EncodeByte;
    if v != "" {
      CleanStep(v[0]);
      EncodedClean(v[1..]);
      assert EncodeByte(v[0]) != "" by { EncodedSome(v[0]); }
    }
  }

  lemma EncodedSome(c: char)
    requires c as int < 256
    ensures EncodeByte(c) != ""
  {
  }

  lemma ItemShape(p: Pair)
    requires IsByteString(p.1) && KeyOk(p.0)
    ensures '&' !in Item(p) && NonEmpty(Trim(Item(p))) == [Item(p)]
  {
    hide EncodeParam, Trim, DecodeUrl;
    EncodedClean(p.1);
    TrimOfTrimmed(Item(p));
  }

  /** An item splits into its key and its encoded value. */
  lemma ItemKeyValue(p: Pair)
    requires IsByteString(p.1) && KeyOk(p.0)
    ensures KeyValue(Item(p)) == Some((p.0, EncodeParam(p.1)))
  {
    hide EncodeParam, Trim, Pieces, DecodeUrl;
    var e := EncodeParam(p.1);
    EncodedClean(p.1);
    PiecesOf(p.0, '=', e);
    PiecesOf(e, '=', "");
    TrimOfTrimmed(p.0);
    TrimOfTrimmed(e);
  }

  lemma ItemInjective(p: Pair, q: Pair)
    requires IsByteString(p.1) && KeyOk(p.0) && IsByteString(q.1) && KeyOk(q.0)
    ensures Item(p) == Item(q) <==> p == q
  {
    hide KeyValue, EncodeParam, DecodeUrl;
    ItemKeyValue(p);
    ItemKeyValue(q);
    DecodeEncode(p.1, true);
    DecodeEncode(q.1, true);
  }

  function Items(ps: seq<Pair>): (r: seq<string>)
    requires Bytewise(ps)
  {
    if ps == [] then [] else [Item(ps[0])] + Items(ps[1..])
  }

  lemma QueryStep(ps: seq<Pair>)
    requires Bytewise(ps) && ps != []
    ensures QueryText(ps) == if |ps| == 1 then Item(ps[0]) else Item(ps[0]) + ['&'] + QueryText(ps[1..])
  {
    hide Item;
    if |ps| > 1 {
      var rest := ps[1..];
      assert Rest(rest) == "&" + (Item(rest[0]) + Rest(rest[1..]));
    }
  }

  lemma {:induction false} QueryPieces(ps: seq<Pair>)
    requires Bytewise(ps) && KeysOk(ps)
    ensures Pieces(QueryText(ps), '&') == Items(ps)
    decreases |ps|
  {
    hide Pieces, Item, Trim;
    if ps == [] {
      EmptyPieces();
    } else {
      QueryStep(ps);
      ItemShape(ps[0]);
      if |ps| == 1 {
        PiecesOf(Item(ps[0]), '&', "");
      } else {
        QueryPieces(ps[1..]);
        PiecesOf(Item(ps[0]), '&', QueryText(ps[1..]));
      }
    }
  }

  lemma EmptyPieces()
    ensures Pieces("", '&') == []
  {
    PiecesOf("", '&', "");
  }

  /** The texts seen so far are those of the pairs seen so far. */
  ghost predicate Agree(ps: seq<Pair>, seen: set<Pair>, cache: set<string>)
    requires Bytewise(ps)
  {
    forall i :: 0 <= i < |ps| ==> (Item(ps[i]) in cache <==> ps[i] in seen)
  }

  function Raw(ps: seq<Pair>): seq<Pair>
    requires Bytewise(ps)
  {
    if ps == [] then [] else [(ps[0].0, EncodeParam(ps[0].1))] + Raw(ps[1..])
  }

  lemma AgreeStep(ps: seq<Pair>, seen: set<Pair>, cache: set<string>)
    requires Bytewise(ps) && KeysOk(ps) && ps != [] && Agree(ps, seen, cache)
    ensures Agree(ps[1..], seen, cache) && Agree(ps[1..], seen + {ps[0]}, cache + {Item(ps[0])})
  {
    hide Item, KeyOk;
    forall i | 0 <= i < |ps| - 1 ensures Item(ps[1..][i]) == Item(ps[0]) <==> ps[1..][i] == ps[0] {
      assert ps[1..][i] == ps[i + 1];
      ItemInjective(ps[1..][i], ps[0]);
    }
  }

  lemma {:induction false} RawOfItems(ps: seq<Pair>, seen: set<Pair>, cache: set<string>)
    requires Bytewise(ps) && KeysOk(ps) && Agree(ps, seen, cache)
    ensures Bytewise(Dedup(ps, seen)) && RawPairs(Items(ps), cache) == Raw(Dedup(ps, seen))
    decreases |ps|
  {
    hide Item, KeyOk, KeyValue, EncodeParam;
    DedupKeeps(ps, seen);
    if ps != [] {
      AgreeStep(ps, seen, cache);
      ItemKeyValue(ps[0]);
      if ps[0] in seen {
        RawOfItems(ps[1..], seen, cache);
      } else {
        RawOfItems(ps[1..], seen + {ps[0]}, cache + {Item(ps[0])});
      }
    }
  }

  lemma {:induction false} DecodedRaw(ps: seq<Pair>)
    requires Bytewise(ps) && KeysOk(ps)
    ensures Decoded(Raw(ps)) == ps
    decreases |ps|
  {
    hide EncodeParam, DecodeUrl, Decoded, IsByteString;
    if ps == [] {
      assert Decoded([]) == [];
    } else {
      DecodeEncode(ps[0].1, true);
      DecodedRaw(ps[1..]);
      DecodedMore((ps[0].0, EncodeParam(ps[0].1)), Raw(ps[1..]));
      assert ps == [ps[0]] + ps[1..];
    }
  }

  lemma DecodedMore(p: Pair, ps: seq<Pair>)
    ensures Decoded([p] + ps) == [(DecodeUrl(p.0, true), DecodeUrl(p.1, true))] + Decoded(ps)
  {
    hide DecodeUrl, Decoded;
    var r := Decoded([p] + ps);
    forall i | 0 <= i < |ps| ensures r[i + 1] == Decoded(ps)[i] {
      assert ([p] + ps)[i + 1] == ps[i];
    }
  }

  lemma DedupKeeps(ps: seq<Pair>, seen: set<Pair>)
    requires Bytewise(ps) && KeysOk(ps)
    ensures Bytewise(Dedup(ps, seen)) && KeysOk(Dedup(ps, seen))
  {
    hide KeyOk, IsByteString;
    var r := Dedup(ps, seen);
    forall i | 0 <= i < |r| ensures IsByteString(r[i].1) && KeyOk(r[i].0) {
      assert r[i] in ps;
    }
  }

  /** Reading a printed multimap gives it back, with identical pairs collapsed. */
  lemma RoundTrip(ps: seq<Pair>)
    requires Sorted(ps) && Bytewise(ps) && KeysOk(ps)
    ensures Parsed([], QueryText(ps)) == Dedup(ps, {})
  {
    hide Items, Raw, Dedup, EmplaceAll, Pieces, RawPairs, Sorted, QueryText, KeysOk, Decoded;
    QueryPieces(ps);
    RawOfItems(ps, {}, {});
    DedupKeeps(ps, {});
    DecodedRaw(Dedup(ps, {}));
    DedupSorted(ps, {});
    assert [] + Dedup(ps, {}) == Dedup(ps, {});
    EmplaceSorted([], Dedup(ps, {}));
  }

  // ----- Which keys survive -----

  lemma {:induction false} PiecesJoin(x: string, d: char, y: string)
    ensures Pieces(x + [d] + y, d) == Pieces(x, d) + Pieces(y, d)
    decreases |x|
  {
    hide Pieces, Trim;
    var i := PiecesUnfold(x, d);
    FindCharFirst(x, d);
    if i == |x| {
      assert x[..i] == x;
      PiecesOf(x, d, y);
    } else {
      var rest := x[i + 1..];
      assert x[i] == d by { OccurrenceStarts(x, [d], i); }
      assert x + [d] + y == x[..i] + [d] + (rest + [d] + y);
      PiecesOf(x[..i], d, rest + [d] + y);
      PiecesJoin(rest, d, y);
    }
  }

  /** A text with a separator has only shorter pieces. */
  lemma PiecesShort(s: string, d: char)
    requires d in s
    ensures forall p :: p in Pieces(s, d) ==> |p| < |s|
  {
    hide Pieces, Trim;
    var i := PiecesUnfold(s, d);
    FindCharFirst(s, d);
    assert s[..|s|] == s;
    TrimShorter(s[..i]);
    PiecesNonEmpty(s[i + 1..], d);
  }

  lemma TrimExactly(s: string)
    ensures if IsTrimmed(s) then TrimLeft(s) == s && Trim(s) == s else |Trim(s)| < |s|
  {
    if IsTrimmed(s) {
      TrimOfTrimmed(s);
    } else {
      TrimLeftShorter(s);
      TrimRightShorter(TrimLeft(s));
      if IsBlank(s[0]) {
        TrimLeftShorter(s[1..]);
      } else {
        TrimRightShorter(s[..|s| - 1]);
      }
    }
  }

  lemma {:induction false} TrimPrefix(k: string, t: string)
    requires t != "" && !IsBlank(t[0]) && !IsBlank(t[|t| - 1])
    ensures Trim(k + t) == TrimLeft(k) + t
  {
    if k == "" {
      assert k + t == t;
      TrimOfTrimmed(t);
    } else if IsBlank(k[0]) {
      assert (k + t)[1..] == k[1..] + t;
      TrimPrefix(k[1..], t);
    } else {
      TrimOfTrimmed(k + t);
    }
  }

  /** The raw key of a piece of `k=e`, when `e` has no separators or blanks. */
  lemma {:induction false} RawKey(k: string, e: string, kv: string)
    requires forall i :: 0 <= i < |e| ==> CleanByte(e[i])
    requires kv in Pieces(k + "=" + e, '&') && KeyValue(kv).Some?
    ensures var (rk, rv) := KeyValue(kv).value;
            || (rk == e && rv == "") || |rk| < |k| || (rk == k && '&' !in k && '=' !in k && IsTrimmed(k))
    decreases |k|
  {
    hide Pieces, Trim, TrimLeft;
    if '&' in k {
      var i := PiecesUnfold(k, '&');
      FindCharFirst(k, '&');
      assert k[..|k|] == k;
      var a, b := k[..i], k[i + 1..];
      assert k[i] == '&' by { OccurrenceStarts(k, "&", i); }
      assert k + "=" + e == a + ['&'] + (b + "=" + e);
      PiecesOf(a, '&', b + "=" + e);
      if kv in Pieces(b + "=" + e, '&') {
        RawKey(b, e, kv);
      } else {
        TrimShorter(a);
        PiecesNonEmpty(kv, '=');
      }
    } else {
      PiecesOf(k + "=" + e, '&', "");
      LoneKey(k, e);
    }
  }

  lemma LoneKey(k: string, e: string)
    requires '&' !in k && forall i :: 0 <= i < |e| ==> CleanByte(e[i])
    requires KeyValue(Trim(k + "=" + e)).Some?
    ensures var (rk, rv) := KeyValue(Trim(k + "=" + e)).value;
            (rk == e && rv == "") || |rk| < |k| || (rk == k && '=' !in k && IsTrimmed(k))
  {
    hide Pieces, Trim, TrimLeft;
    var t := TrimLeft(k);
    assert k + "=" + e == k + ("=" + e);
    TrimPrefix(k, "=" + e);
    assert t + ("=" + e) == t + ['='] + e;
    PiecesJoin(t, '=', e);
    PiecesOf(e, '=', "");
    TrimOfTrimmed(e);
    TrimLeftShorter(k);
    TrimExactly(k);
    TrimExactly(t);
    if Pieces(t, '=') != [] {
      if '=' in t {
        PiecesShort(t, '=');
      } else {
        PiecesOf(t, '=', "");
        TrimTwice(k);
      }
    }
  }

  lemma TrimTwice(k: string)
    ensures Trim(TrimLeft(k)) == Trim(k)
  {
    LeftTwice(k);
  }

  lemma {:induction false} LeftTwice(k: string)
    ensures TrimLeft(TrimLeft(k)) == TrimLeft(k)
  {
    if k != "" && IsBlank(k[0]) {
      LeftTwice(k[1..]);
    }
  }

  lemma {:induction false} RawFrom(kvs: seq<string>, seen: set<string>, p: Pair)
    requires p in RawPairs(kvs, seen)
    ensures exists kv :: kv in kvs && KeyValue(kv) == Some(p)
  {
    hide KeyValue;
    if kvs[0] in seen {
      RawFrom(kvs[1..], seen, p);
    } else if KeyValue(kvs[0]) == Some(p) {
    } else {
      RawFrom(kvs[1..], seen + {kvs[0]}, p);
    }
  }

  lemma {:induction false} EmplaceSize(ps: seq<Pair>, qs: seq<Pair>)
    ensures |EmplaceAll(ps, qs)| == |ps| + |qs|
    decreases |qs|
  {
    if qs != [] {
      EmplacedSize(ps, qs[0]);
      EmplaceSize(Emplace(ps, qs[0]), qs[1..]);
    }
  }

  lemma {:induction false} EmplacedSize(ps: seq<Pair>, p: Pair)
    ensures |Emplace(ps, p)| == |ps| + 1
    decreases |ps|
  {
    if ps != [] {
      EmplacedSize(ps[1..], p);
    }
  }

  lemma EmplaceOne(qs: seq<Pair>, p: Pair)
    requires EmplaceAll([], qs) == [p]
    ensures qs == [p]
  {
    EmplaceSize([], qs);
    assert qs[1..] == [];
    assert EmplaceAll([], qs) == Emplace([], qs[0]);
  }

  /** A parameter is read back as it was printed exactly when its key is of that kind; the value never matters. */
  lemma KeyExactly(k: string, v: string)
    requires IsByteString(v)
    ensures Parsed([], QueryText([(k, v)])) == [(k, v)] <==> KeyOk(k)
  {
    hide Pieces, RawPairs, EmplaceAll, KeyValue, EncodeParam, DecodeUrl, Less;
    var p: Pair, e := (k, v), EncodeParam(v);
    assert QueryText([p]) == k + "=" + e by { OneItem(p); }
    if KeyOk(k) {
      RoundTrip([p]);
      assert Dedup([p], {}) == [p];
    } else if Parsed([], QueryText([p])) == [p] {
      var kvs := Pieces(k + "=" + e, '&');
      var raw := RawPairs(kvs, {});
      EmplaceOne(Decoded(raw), p);
      RawFrom(kvs, {}, raw[0]);
      var kv :| kv in kvs && KeyValue(kv) == Some(raw[0]);
      EncodedClean(v);
      RawKey(k, e, kv);
      DecodeShortens(raw[0].0, true);
      KeyPresent(kv);
      NothingToDecode();
      assert false;
    }
  }

  lemma OneItem(p: Pair)
    requires IsByteString(p.1)
    ensures QueryText([p]) == Item(p)
  {
    assert [p][1..] == [] && Item(p) + "" == Item(p);
  }

  lemma KeyPresent(kv: string)
    requires KeyValue(kv).Some?
    ensures KeyValue(kv).value.0 != ""
  {
    PiecesNonEmpty(kv, '=');
  }

  lemma NothingToDecode()
    ensures DecodeUrl("", true) == ""
  {
  }
}
