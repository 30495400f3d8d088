/**
 * Move-to-front coding over the 256 extended-ASCII symbols.
 *
 * The decoder keeps its recency list in an array; the encoder keeps the
 * same list as a doubly-linked list whose nodes also record their position,
 * reached through a symbol-to-node table. Here the encoder is the list
 * order together with the table of recorded positions. Symbols and codes
 * are Java `char` values, modelled as naturals.
 */
module MoveToFront {
  import opened Wrappers

  const R: nat := 256

  /** The decoder table as the constructor fills it, and the encoder's starting order. */
  function InitialTable(): (t: seq<nat>)
    ensures |t| == R && forall i :: 0 <= i < R ==> t[i] == i
  {
    seq(R, i => i)
  }

  /** Every entry of `s` is below `n`. */
  predicate Below(s: seq<nat>, n: nat) {
    forall k :: 0 <= k < |s| ==> s[k] < n
  }

  lemma BelowCons(s: seq<nat>, n: nat)
    requires |s| > 0
    ensures Below(s, n) <==> s[0] < n && Below(s[1..], n)
  {
    if s[0] < n && Below(s[1..], n) {
      forall k | 0 < k < |s| ensures s[k] < n {
        assert s[k] == s[1..][k - 1];
      }
    }
  }

  /** `t` holds every symbol exactly once. */
  predicate IsPermutation(t: seq<nat>) {
    multiset(t) == multiset(InitialTable())
  }

  // ---------------------------------------------------------------------------
  // Decoder

  /** The loop `charPos[pos] = charPos[--pos]` while `pos > 0`: slots `0..pos-1` move one to the right. */
  function ShiftRight(t: seq<nat>, pos: nat): (u: seq<nat>)
    requires pos < |t|
    ensures |u| == |t| && u[0] == t[0]
    ensures forall k :: 0 < k <= pos ==> u[k] == t[k - 1]
    ensures forall k :: pos < k < |t| ==> u[k] == t[k]
    decreases pos
  {
    if pos == 0 then t else ShiftRight(t[pos := t[pos - 1]], pos - 1)
  }

  /**
   * `getCharacter`: the symbol at position `pos`, which then moves to the
   * front. A position past the table is an array index out of bounds.
   */
  function GetCharacter(t: seq<nat>, pos: nat): (r: Result<(nat, seq<nat>)>)
    ensures r.Err? <==> pos >= |t|
    ensures r.Err? ==> r.error == IndexOutOfBounds
    ensures r.Ok? ==> r.value.0 == t[pos] && r.value.1 == [t[pos]] + t[..pos] + t[pos + 1..]
  {
    if pos >= |t| then Err(IndexOutOfBounds)
    else
      var c := t[pos];
      var u := ShiftRight(t, pos)[0 := c];
      assert u == [t[pos]] + t[..pos] + t[pos + 1..];
      Ok((c, u))
  }

  /** The decoder table stays a permutation of the symbols. */
  lemma GetCharacterKeepsPermutation(t: seq<nat>, pos: nat)
    requires IsPermutation(t) && pos < |t|
    ensures GetCharacter(t, pos).Ok? && IsPermutation(GetCharacter(t, pos).value.1)
  {
    assert t == t[..pos] + [t[pos]] + t[pos + 1..];
  }

  /** `decode(String)`: each code is looked up and moved to the front in turn. */
  function DecodeWith(t: seq<nat>, codes: seq<nat>): (r: Result<seq<nat>>)
    ensures r.Err? <==> !Below(codes, |t|)
    ensures r.Ok? ==> |r.value| == |codes|
    decreases |codes|
  {
    if |codes| == 0 then Ok([])
    else
      BelowCons(codes, |t|);
      match GetCharacter(t, codes[0])
      case Err(e) => Err(e)
      case Ok(g) =>
        var rest := DecodeWith(g.1, codes[1..]);
        if rest.Err? then Err(rest.error) else Ok([g.0] + rest.value)
  }

  function Decode(codes: seq<nat>): (r: Result<seq<nat>>)
    ensures r.Err? <==> !Below(codes, R)
  {
    DecodeWith(InitialTable(), codes)
  }

  // ---------------------------------------------------------------------------
  // Encoder

  /**
   * The encoder's linked list, front to back, and `index[c]`, the position
   * recorded in symbol `c`'s node.
   */
  datatype Encoder = Encoder(order: seq<nat>, index: seq<nat>)

  /** The recorded positions are the positions in the list, and the list holds every symbol once. */
  predicate Synced(e: Encoder) {
    && |e.order| == R && |e.index| == R && IsPermutation(e.order)
    && (forall k :: 0 <= k < R ==> e.order[k] < R && e.index[e.order[k]] == k)
  }

  /** The constructor: one node per symbol, in symbol order, each knowing its position. */
  function NewEncoder(): (e: Encoder)
    ensures Synced(e) && e.order == InitialTable()
  {
    Encoder(InitialTable(), InitialTable())
  }

  /** Every symbol sits somewhere in a permutation table. */
  lemma SymbolIn(t: seq<nat>, c: nat)
    requires IsPermutation(t) && c < R
    ensures c in t
  {
    assert InitialTable()[c] == c;
    assert c in multiset(InitialTable());
  }

  /** In a synced encoder the symbol `c` sits at its recorded position. */
  lemma SyncedPosition(e: Encoder, c: nat)
    requires Synced(e) && c < R
    ensures e.index[c] < R && e.order[e.index[c]] == c
  {
    SymbolIn(e.order, c);
    var m :| 0 <= m < R && e.order[m] == c;
    assert e.index[c] == m;
  }

  /**
   * `updateCountsBeforeNode`: walking back from position `k - 1` to the
   * head, every node passed gets its recorded position raised by one.
   */
  function UpdateCountsBefore(index: seq<nat>, order: seq<nat>, k: nat): (r: seq<nat>)
    requires k <= |order| && forall j :: 0 <= j < k ==> order[j] < |index|
    requires forall i, j :: 0 <= i < j < k ==> order[i] != order[j]
    ensures |r| == |index|
    ensures forall c :: 0 <= c < |index| ==> r[c] == if c in order[..k] then index[c] + 1 else index[c]
    decreases k
  {
    if k == 0 then index
    else
      var c := order[k - 1];
      var r := UpdateCountsBefore(index[c := index[c] + 1], order, k - 1);
      assert forall x :: x in order[..k] <==> x in order[..k - 1] || x == c;
      r
  }

  /**
   * `moveToFirst` on the node at position `k`: the nodes before it move one
   * place back, it is unlinked, relinked at the front and records position 0.
   */
  function MoveToFirst(e: Encoder, k: nat): (r: Encoder)
    requires Synced(e) && k < R
    ensures Synced(r)
    ensures r.order == [e.order[k]] + e.order[..k] + e.order[k + 1..]
    ensures r.index[e.order[k]] == 0
    ensures forall c :: 0 <= c < R && c != e.order[k] ==>
              r.index[c] == if e.index[c] < k then e.index[c] + 1 else e.index[c]
  {
    var c := e.order[k];
    forall i, j | 0 <= i < j < k ensures e.order[i] != e.order[j] {
      assert e.index[e.order[i]] == i && e.index[e.order[j]] == j;
    }
    var counted := UpdateCountsBefore(e.index, e.order, k);
    var r := Encoder([c] + e.order[..k] + e.order[k + 1..], counted[c := 0]);
    MoveToFirstSynced(e, k, r);
    r
  }

  lemma MoveToFirstSynced(e: Encoder, k: nat, r: Encoder)
    requires Synced(e) && k < R
    requires r.order == [e.order[k]] + e.order[..k] + e.order[k + 1..]
    requires |r.index| == R && r.index[e.order[k]] == 0
    requires forall c :: 0 <= c < R && c != e.order[k] ==>
               r.index[c] == if c in e.order[..k] then e.index[c] + 1 else e.index[c]
    ensures Synced(r)
    ensures forall c :: 0 <= c < R && c != e.order[k] ==>
              r.index[c] == if e.index[c] < k then e.index[c] + 1 else e.index[c]
  {
    var c := e.order[k];
    assert e.order == e.order[..k] + [c] + e.order[k + 1..];
    forall x | 0 <= x < R && x != c
      ensures x in e.order[..k] <==> e.index[x] < k
    {
      SyncedPosition(e, x);
      if x in e.order[..k] {
        var m' :| 0 <= m' < k && e.order[m'] == x;
        assert e.index[e.order[m']] == m';
      }
    }
    forall m | 0 <= m < R
      ensures r.order[m] < R && r.index[r.order[m]] == m
    {
      if m == 0 {
      } else if m <= k {
        assert r.order[m] == e.order[m - 1];
        assert e.index[e.order[m - 1]] == m - 1 && e.index[c] == k;
      } else {
        assert r.order[m] == e.order[m];
        assert e.index[e.order[m]] == m && e.index[c] == k;
      }
    }
    assert multiset(r.order) == multiset(e.order);
  }

  /**
   * `getIndex`: the position of `c` in the list, after which `c` is moved to
   * the front; a symbol already at the front leaves the list as it is. A
   * symbol past the node table is an array index out of bounds.
   */
  function GetIndex(e: Encoder, c: nat): (r: Result<(nat, Encoder)>)
    requires Synced(e)
    ensures r.Err? <==> c >= R
    ensures r.Err? ==> r.error == IndexOutOfBounds
    ensures r.Ok? ==> r.value.0 < R && e.order[r.value.0] == c && Synced(r.value.1)
    ensures r.Ok? ==> r.value.1.order == [c] + e.order[..r.value.0] + e.order[r.value.0 + 1..]
    ensures r.Ok? && r.value.0 == 0 ==> r.value.1 == e
  {
    if c >= R then Err(IndexOutOfBounds)
    else
      SyncedPosition(e, c);
      var k := e.index[c];
      if k > 0 then Ok((k, MoveToFirst(e, k)))
      else
        assert e.order == [c] + e.order[..0] + e.order[1..];
        Ok((0, e))
  }

  /** `encode(String)`: each symbol is replaced by its current position and moved to the front. */
  function EncodeWith(e: Encoder, msg: seq<nat>): (r: Result<seq<nat>>)
    requires Synced(e)
    ensures r.Err? <==> !Below(msg, R)
    ensures r.Ok? ==> |r.value| == |msg| && Below(r.value, R)
    decreases |msg|
  {
    if |msg| == 0 then Ok([])
    else
      BelowCons(msg, R);
      match GetIndex(e, msg[0])
      case Err(err) => Err(err)
      case Ok(g) =>
        var rest := EncodeWith(g.1, msg[1..]);
        if rest.Err? then Err(rest.error) else Ok([g.0] + rest.value)
  }

  function Encode(msg: seq<nat>): (r: Result<seq<nat>>)
    ensures r.Err? <==> !Below(msg, R)
  {
    EncodeWith(NewEncoder(), msg)
  }

  // ---------------------------------------------------------------------------
  // The two directions agree

  /**
   * An encoder and a decoder whose lists agree stay in step: decoding the
   * encoder's output gives the message back.
   */
  lemma {:induction false} DecodeEncodeWith(e: Encoder, msg: seq<nat>)
    requires Synced(e) && Below(msg, R)
    ensures EncodeWith(e, msg).Ok? && DecodeWith(e.order, EncodeWith(e, msg).value) == Ok(msg)
    decreases |msg|
  {
    if |msg| > 0 {
      var g := GetIndex(e, msg[0]).value;
      assert Below(msg[1..], R);
      DecodeEncodeWith(g.1, msg[1..]);
      IndexAgrees(e, msg[0]);
      DecodeEncodeStep(e, msg, g.0, g.1, EncodeWith(g.1, msg[1..]).value);
    }
  }

  /** The encoder's step on a symbol and the decoder's step at the position it reports leave the same list. */
  lemma IndexAgrees(e: Encoder, c: nat)
    requires Synced(e) && c < R
    ensures var g := GetIndex(e, c).value; GetCharacter(e.order, g.0) == Ok((c, g.1.order))
  {
  }

  /** The inductive step: a list that agrees before the first symbol agrees after it. */
  lemma DecodeEncodeStep(e: Encoder, msg: seq<nat>, k: nat, e': Encoder, rest: seq<nat>)
    requires Synced(e) && |msg| > 0 && msg[0] < R
    requires GetIndex(e, msg[0]) == Ok((k, e')) && GetCharacter(e.order, k) == Ok((msg[0], e'.order))
    requires EncodeWith(e', msg[1..]) == Ok(rest) && DecodeWith(e'.order, rest) == Ok(msg[1..])
    ensures EncodeWith(e, msg) == Ok([k] + rest) && DecodeWith(e.order, [k] + rest) == Ok(msg)
  {
    EncodeWithCons(e, msg);
    DecodeWithCons(e.order, [k] + rest);
    DropHead(k, rest);
    SplitHead(msg);
  }

  /** One encoder step: the first symbol's position, then the rest encoded with the updated list. */
  lemma EncodeWithCons(e: Encoder, msg: seq<nat>)
    requires Synced(e) && |msg| > 0 && msg[0] < R
    ensures var g := GetIndex(e, msg[0]).value;
      EncodeWith(g.1, msg[1..]).Ok? ==> EncodeWith(e, msg) == Ok([g.0] + EncodeWith(g.1, msg[1..]).value)
  {
  }

  /** One decoder step: the symbol at the first code, then the rest decoded with the updated table. */
  lemma DecodeWithCons(t: seq<nat>, codes: seq<nat>)
    requires |codes| > 0 && codes[0] < |t|
    ensures var g := GetCharacter(t, codes[0]).value;
      DecodeWith(g.1, codes[1..]).Ok? ==> DecodeWith(t, codes) == Ok([g.0] + DecodeWith(g.1, codes[1..]).value)
  {
  }

  /** Decoding, with a fresh decoder, the output of a fresh encoder gives the message back. */
  lemma DecodeEncode(msg: seq<nat>)
    requires Below(msg, R)
    ensures Encode(msg).Ok? && Decode(Encode(msg).value) == Ok(msg)
  {
    DecodeEncodeWith(NewEncoder(), msg);
  }

  /** And the other way round: encoding the decoder's output gives the codes back. */
  lemma {:induction false} EncodeDecodeWith(e: Encoder, codes: seq<nat>)
    requires Synced(e) && Below(codes, R)
    ensures DecodeWith(e.order, codes).Ok? && EncodeWith(e, DecodeWith(e.order, codes).value) == Ok(codes)
    decreases |codes|
  {
    if |codes| > 0 {
      var e' := StepsAgree(e, codes[0]);
      assert Below(codes[1..], R);
      EncodeDecodeWith(e', codes[1..]);
      EncodeDecodeStep(e, codes, e', DecodeWith(e'.order, codes[1..]).value);
    }
  }

  /** The inductive step the other way round. */
  lemma EncodeDecodeStep(e: Encoder, codes: seq<nat>, e': Encoder, rest: seq<nat>)
    requires Synced(e) && |codes| > 0 && codes[0] < R
    requires GetIndex(e, e.order[codes[0]]) == Ok((codes[0], e'))
    requires GetCharacter(e.order, codes[0]) == Ok((e.order[codes[0]], e'.order))
    requires DecodeWith(e'.order, codes[1..]) == Ok(rest) && EncodeWith(e', rest) == Ok(codes[1..])
    ensures DecodeWith(e.order, codes) == Ok([e.order[codes[0]]] + rest)
    ensures EncodeWith(e, [e.order[codes[0]]] + rest) == Ok(codes)
  {
    DecodeWithCons(e.order, codes);
    var msg := [e.order[codes[0]]] + rest;
    EncodeWithCons(e, msg);
    DropHead(e.order[codes[0]], rest);
    SplitHead(codes);
  }

  lemma SplitHead(s: seq<nat>)
    requires |s| > 0
    ensures s == [s[0]] + s[1..]
  {
  }

  lemma DropHead(x: nat, s: seq<nat>)
    ensures ([x] + s)[0] == x && ([x] + s)[1..] == s
  {
  }

  /** The decoder's step at position `k` and the encoder's step on the symbol there leave the same list. */
  lemma StepsAgree(e: Encoder, k: nat) returns (e': Encoder)
    requires Synced(e) && k < R
    ensures GetIndex(e, e.order[k]) == Ok((k, e')) && Synced(e')
    ensures GetCharacter(e.order, k) == Ok((e.order[k], e'.order))
  {
    assert e.index[e.order[k]] == k;
    e' := GetIndex(e, e.order[k]).value.1;
  }

  lemma EncodeDecode(codes: seq<nat>)
    requires Below(codes, R)
    ensures Decode(codes).Ok? && Encode(Decode(codes).value) == Ok(codes)
  {
    EncodeDecodeWith(NewEncoder(), codes);
  }
}
