/** The pretrained tokenizer as the transformation stage calls it:
    `tokenizer(texts, padding=True, max_length=cap, truncation=True)`.
    What the tokenizer does to one string is a parameter (`encode`,
    truncating to a cap); what this module fixes is how a list of strings is
    padded to the longest encoding and masked.
 */
module Tokenization {

  /** `encode(s, cap)` is the id sequence of `s` (special tokens included)
      after truncation to `cap`; `padId` fills the short rows. */
  datatype Tokenizer = Tokenizer(encode: (string, nat) -> seq<int>, padId: int)

  /** Truncation is honoured: no encoding is longer than its cap. */
  ghost predicate HonoursCap(tok: Tokenizer) {
    forall s, cap {:trigger tok.encode(s, cap)} :: |tok.encode(s, cap)| <= cap
  }

  /** The `input_ids` and `attention_mask` of a padded batch, one row per
      input string. */
  datatype Encoding = Encoding(inputIds: seq<seq<int>>, attentionMask: seq<seq<int>>)

  /** Length of the longest sequence, 0 for none. */
  function Widest(seqs: seq<seq<int>>): (w: nat)
    ensures forall i :: 0 <= i < |seqs| ==> |seqs[i]| <= w
    ensures |seqs| == 0 ==> w == 0
    ensures |seqs| > 0 ==> exists i :: 0 <= i < |seqs| && |seqs[i]| == w
  {
    if seqs == [] then 0
    else
      var rest := Widest(seqs[1..]);
      assert forall i :: 1 <= i < |seqs| ==> seqs[i] == seqs[1..][i - 1];
      if |seqs[0]| >= rest then |seqs[0]| else rest
  }

  /** Right padding to `width` with `pad`. */
  function PadTo(ids: seq<int>, width: nat, pad: int): (r: seq<int>)
    requires |ids| <= width
    ensures |r| == width && r[..|ids|] == ids
    ensures forall k :: |ids| <= k < width ==> r[k] == pad
  {
    ids + seq(width - |ids|, _ => pad)
  }

  /** The attention mask of an encoding of length `n` padded to `width`. */
  function MaskFor(n: nat, width: nat): (m: seq<int>)
    requires n <= width
    ensures |m| == width
    ensures forall k :: 0 <= k < width ==> m[k] == if k < n then 1 else 0
  {
    seq(width, k => if k < n then 1 else 0)
  }

  /** Every position of `ids` from `n` on holds the pad id. */
  predicate PaddedAfter(ids: seq<int>, n: nat, pad: int) {
    forall k :: n <= k < |ids| ==> ids[k] == pad
  }

  /** The mask is 1 on the first `n` positions and 0 on the rest. */
  predicate MaskMarks(mask: seq<int>, n: nat) {
    forall k :: 0 <= k < |mask| ==> mask[k] == if k < n then 1 else 0
  }

  /** The ids the mask marks as real tokens, in order. */
  function Strip(ids: seq<int>, mask: seq<int>): seq<int>
    requires |ids| == |mask|
  {
    if ids == [] then []
    else (if mask[0] == 1 then [ids[0]] else []) + Strip(ids[1..], mask[1..])
  }

  /** Stripping the padding its mask marks gives back the unpadded ids. */
  lemma {:induction false} StripPadded(ids: seq<int>, width: nat, pad: int)
    requires |ids| <= width
    ensures Strip(PadTo(ids, width, pad), MaskFor(|ids|, width)) == ids
    decreases width
  {
    var p := PadTo(ids, width, pad);
    var m := MaskFor(|ids|, width);
    if width > 0 {
      if ids == [] {
        assert m[0] == 0;
        assert p[1..] == PadTo([], width - 1, pad);
        assert m[1..] == MaskFor(0, width - 1);
        StripPadded([], width - 1, pad);
      } else {
        assert m[0] == 1 && p[0] == ids[0];
        assert p[1..] == PadTo(ids[1..], width - 1, pad);
        assert m[1..] == MaskFor(|ids| - 1, width - 1);
        StripPadded(ids[1..], width - 1, pad);
        assert ids == [ids[0]] + ids[1..];
      }
    }
  }

  /** `StripPadded` for every sequence padded to a common width. */
  lemma StripAll(es: seq<seq<int>>, w: nat, pad: int)
    requires forall i :: 0 <= i < |es| ==> |es[i]| <= w
    ensures forall i :: 0 <= i < |es| ==> Strip(PadTo(es[i], w, pad), MaskFor(|es[i]|, w)) == es[i]
  {
    forall i | 0 <= i < |es| ensures Strip(PadTo(es[i], w, pad), MaskFor(|es[i]|, w)) == es[i] {
      StripPadded(es[i], w, pad);
    }
  }

  /** A tokenizer that honours the cap keeps the padded width within it. */
  lemma WidestWithinCap(tok: Tokenizer, docs: seq<string>, cap: nat)
    ensures HonoursCap(tok) ==> Widest(EncodeAll(tok, docs, cap)) <= cap
  {
    var es := EncodeAll(tok, docs, cap);
    if HonoursCap(tok) && |docs| > 0 {
      var i :| 0 <= i < |es| && |es[i]| == Widest(es);
      assert |tok.encode(docs[i], cap)| <= cap;
    }
  }

  /** The encodings of `docs`, unpadded. */
  function EncodeAll(tok: Tokenizer, docs: seq<string>, cap: nat): (es: seq<seq<int>>)
    ensures |es| == |docs| && forall i :: 0 <= i < |docs| ==> es[i] == tok.encode(docs[i], cap)
  {
    seq(|docs|, i requires 0 <= i < |docs| => tok.encode(docs[i], cap))
  }

  /** `tokenizer(docs, padding=True, max_length=cap, truncation=True)`:
      every row is padded on the right to the longest encoding in the
      batch, its mask is 1 on exactly the real tokens and 0 on the padding, and no row exceeds the cap when the
      tokenizer honours it. */
  function EncodeBatch(tok: Tokenizer, docs: seq<string>, cap: nat): (e: Encoding)
    ensures |e.inputIds| == |docs| && |e.attentionMask| == |docs|
    ensures forall i :: 0 <= i < |docs| ==>
      && |e.inputIds[i]| == |e.attentionMask[i]| == Widest(EncodeAll(tok, docs, cap))
      && Strip(e.inputIds[i], e.attentionMask[i]) == tok.encode(docs[i], cap)
      && e.inputIds[i][..|tok.encode(docs[i], cap)|] == tok.encode(docs[i], cap)
      && PaddedAfter(e.inputIds[i], |tok.encode(docs[i], cap)|, tok.padId)
      && MaskMarks(e.attentionMask[i], |tok.encode(docs[i], cap)|)
    ensures HonoursCap(tok) ==> forall i :: 0 <= i < |docs| ==> |e.inputIds[i]| <= cap
  {
    var es := EncodeAll(tok, docs, cap);
    var w := Widest(es);
    var ids := seq(|docs|, i requires 0 <= i < |docs| => PadTo(es[i], w, tok.padId));
    var mask := seq(|docs|, i requires 0 <= i < |docs| => MaskFor(|es[i]|, w));
    StripAll(es, w, tok.padId);
    WidestWithinCap(tok, docs, cap);
    Encoding(ids, mask)
  }
}
