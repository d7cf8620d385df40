/** The list of product codes to look up: the codes read from the first column
    of an uploaded spreadsheet, then the comma-separated codes typed by hand,
    each stripped, with the blank ones dropped. */
module Keywords {
  import opened Text

  /** `[k.strip() for k in pieces if k.strip()]`. */
  function KeepStripped(pieces: seq<string>): (r: seq<string>)
    ensures |r| <= |pieces|
  {
    if pieces == [] then []
    else
      var k := Strip(pieces[0]);
      (if k != [] then [k] else []) + KeepStripped(pieces[1..])
  }

  /** Every kept entry is stripped and not blank. */
  lemma {:induction false} KeepStrippedEntries(pieces: seq<string>)
    ensures forall i :: 0 <= i < |KeepStripped(pieces)| ==> KeepStripped(pieces)[i] != [] && IsStripped(KeepStripped(pieces)[i])
  {
    if pieces != [] {
      KeepStrippedEntries(pieces[1..]);
    }
  }

  /** The positions in `pieces` whose stripped text is not blank, in order. */
  ghost function KeptIndices(pieces: seq<string>): (ix: seq<nat>)
    ensures forall i :: 0 <= i < |ix| ==> ix[i] < |pieces|
  {
    if pieces == [] then []
    else
      (if Strip(pieces[0]) != [] then [0] else []) + Shift(KeptIndices(pieces[1..]))
  }

  ghost function Shift(ix: seq<nat>): (r: seq<nat>)
    ensures |r| == |ix| && forall i :: 0 <= i < |ix| ==> r[i] == ix[i] + 1
  {
    if ix == [] then [] else [ix[0] + 1] + Shift(ix[1..])
  }

  lemma ShiftMember(ix: seq<nat>, p: nat)
    ensures p in Shift(ix) <==> p > 0 && p - 1 in ix
  {
    var st := Shift(ix);
    if p in st {
      var i :| 0 <= i < |st| && st[i] == p;
      assert ix[i] == p - 1;
    }
    if p > 0 && p - 1 in ix {
      var i :| 0 <= i < |ix| && ix[i] == p - 1;
      assert st[i] == p;
    }
  }

  /** A piece's position is kept exactly when its stripped text is not empty. */
  lemma {:induction false} KeptIndicesExact(pieces: seq<string>)
    ensures forall p: nat :: p < |pieces| ==> (p in KeptIndices(pieces) <==> Strip(pieces[p]) != [])
  {
    if pieces != [] {
      var tail := pieces[1..];
      KeptIndicesExact(tail);
      var head: seq<nat> := if Strip(pieces[0]) != [] then [0] else [];
      assert KeptIndices(pieces) == head + Shift(KeptIndices(tail));
      forall p: nat | p < |pieces|
        ensures p in KeptIndices(pieces) <==> Strip(pieces[p]) != []
      {
        ShiftMember(KeptIndices(tail), p);
        if p > 0 {
          assert pieces[p] == tail[p - 1];
        }
      }
    }
  }

  /** The kept positions are positions of `pieces`, in increasing order. */
  lemma {:induction false} KeptIndicesIncrease(pieces: seq<string>)
    ensures forall i :: 0 <= i < |KeptIndices(pieces)| ==> KeptIndices(pieces)[i] < |pieces|
    ensures forall i, j :: 0 <= i < j < |KeptIndices(pieces)| ==> KeptIndices(pieces)[i] < KeptIndices(pieces)[j]
  {
    if pieces != [] {
      KeptIndicesIncrease(pieces[1..]);
      var st := Shift(KeptIndices(pieces[1..]));
      var head: seq<nat> := if Strip(pieces[0]) != [] then [0] else [];
      assert KeptIndices(pieces) == head + st;
    }
  }

  /** Entry `i` of the result is the stripped piece at the `i`-th kept position. */
  predicate EntriesAt(pieces: seq<string>, ix: seq<nat>, r: seq<string>) {
    && |ix| == |r|
    && forall i :: 0 <= i < |ix| ==> ix[i] < |pieces| && r[i] == Strip(pieces[ix[i]])
  }

  lemma {:induction false} KeepStrippedAt(pieces: seq<string>)
    ensures EntriesAt(pieces, KeptIndices(pieces), KeepStripped(pieces))
  {
    if pieces != [] {
      KeepStrippedAt(pieces[1..]);
      EntriesAtStep(pieces, KeptIndices(pieces[1..]), KeepStripped(pieces[1..]));
    }
  }

  /** One step of `KeepStrippedAt`: the first piece, if kept, comes first, and
      every other kept position moves up by one. */
  lemma EntriesAtStep(pieces: seq<string>, it: seq<nat>, rt: seq<string>)
    requires pieces != [] && EntriesAt(pieces[1..], it, rt)
    ensures var k := Strip(pieces[0]);
            EntriesAt(pieces, (if k != [] then [0] else []) + Shift(it), (if k != [] then [k] else []) + rt)
  {
    var tail := pieces[1..];
    var k := Strip(pieces[0]);
    var st := Shift(it);
    if k != [] {
      forall i | 1 <= i < |it| + 1
        ensures ([0] + st)[i] < |pieces| && ([k] + rt)[i] == Strip(pieces[([0] + st)[i]])
      {
        assert ([0] + st)[i] == it[i - 1] + 1;
        assert pieces[it[i - 1] + 1] == tail[it[i - 1]];
      }
      assert ([0] + st)[0] == 0;
    } else {
      forall i | 0 <= i < |it|
        ensures pieces[st[i]] == tail[it[i]]
      {
      }
      assert ([] + st) == st;
      assert ([] + rt) == rt;
    }
  }

  /** The comprehension keeps order and drops exactly the blank entries. */
  lemma KeepStrippedOrder(pieces: seq<string>)
    ensures var ix := KeptIndices(pieces);
            var r := KeepStripped(pieces);
            && EntriesAt(pieces, ix, r)
            && (forall i, j :: 0 <= i < j < |ix| ==> ix[i] < ix[j])
            && (forall p: nat :: p < |pieces| ==> (p in ix <==> Strip(pieces[p]) != []))
  {
    KeptIndicesIncrease(pieces);
    KeepStrippedAt(pieces);
    KeptIndicesExact(pieces);
  }

  /** Filtering the code list piece by piece: the comprehension over a
      concatenation is the concatenation of the comprehensions. */
  lemma {:induction false} KeepStrippedAppend(a: seq<string>, b: seq<string>)
    ensures KeepStripped(a + b) == KeepStripped(a) + KeepStripped(b)
  {
    if a != [] {
      assert (a + b)[0] == a[0];
      assert (a + b)[1..] == a[1..] + b;
      KeepStrippedAppend(a[1..], b);
    } else {
      assert a + b == b;
    }
  }

  /** Applying the comprehension to its own output changes nothing. */
  lemma {:induction false} KeepStrippedIdempotent(pieces: seq<string>)
    ensures KeepStripped(KeepStripped(pieces)) == KeepStripped(pieces)
  {
    if pieces != [] {
      var k := Strip(pieces[0]);
      var rest := KeepStripped(pieces[1..]);
      KeepStrippedIdempotent(pieces[1..]);
      if k == [] {
        assert KeepStripped(pieces) == rest;
      } else {
        assert KeepStripped(pieces) == [k] + rest;
        StripIdempotent(pieces[0]);
        KeepStrippedAppend([k], rest);
        assert KeepStripped([k]) == [k] by {
          assert [k][1..] == [];
        }
      }
    }
  }

  /** The keyword list built from the spreadsheet codes `fileCodes` (already
      converted to text) and the typed-in text: `split(',')` is applied only when
      the text is not empty, then the codes are stripped and the blank ones
      dropped. */
  function NormaliseKeywords(fileCodes: seq<string>, text: string): (r: seq<string>)
    ensures |r| <= |fileCodes| + (if text == [] then 0 else Count(text, ',') + 1)
    ensures forall i :: 0 <= i < |r| ==> r[i] != [] && IsStripped(r[i])
  {
    var typed := if text != [] then Split(text, ',') else [];
    SplitCount(text, ',');
    KeepStrippedEntries(fileCodes + typed);
    KeepStripped(fileCodes + typed)
  }

  /** The spreadsheet codes come first, in their own order, then the typed ones. */
  lemma FileCodesFirst(fileCodes: seq<string>, text: string)
    ensures NormaliseKeywords(fileCodes, text)
            == KeepStripped(fileCodes) + KeepStripped(if text != [] then Split(text, ',') else [])
  {
    KeepStrippedAppend(fileCodes, if text != [] then Split(text, ',') else []);
  }

  /** With no spreadsheet, no keyword holds a comma: each is a stripped piece of
      the typed text. */
  lemma TypedKeywordsHaveNoComma(text: string)
    ensures forall i :: 0 <= i < |NormaliseKeywords([], text)| ==> ',' !in NormaliseKeywords([], text)[i]
  {
    var pieces := if text != [] then Split(text, ',') else [];
    assert [] + pieces == pieces;
    KeepStrippedOrder(pieces);
    var ix := KeptIndices(pieces);
    var r := KeepStripped(pieces);
    forall i | 0 <= i < |r| ensures ',' !in r[i] {
      StripKeepsOut(pieces[ix[i]], ',');
    }
  }

  /** Typed text with no comma and no surrounding blanks is a single keyword. */
  lemma SingleCode(text: string)
    requires text != [] && IsStripped(text) && ',' !in text
    ensures NormaliseKeywords([], text) == [text]
  {
    SplitNoSep(text, ',');
    StripStripped(text);
    assert [] + [text] == [text];
    assert [text][1..] == [];
  }
}
