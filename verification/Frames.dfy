// Which bytes of a message its meaning depends on. A buffer that agrees with
// another on those bytes means the same, up to the TTLs it holds.
module Frames {
  import opened Wire
  import opened Names
  import opened Messages

  // ---------------------------------------------------------------------
  // Names and record data.

  /** Resolving the `n` names at `o` inspects offset `i`. */
  predicate NamesRead(d: bytes, o: nat, n: nat, i: nat)
    decreases n
  {
    n > 0 &&
    (NameReads(d, o, MAX_POINTER_HOPS, i) ||
     (var first := ParseName(d, o, MAX_POINTER_HOPS);
      first.Some? && NamesRead(d, first.value.next, n - 1, i)))
  }

  /** DecompressRDATA at `start` inspects offset `i`; it may look past the record's RDLENGTH. */
  predicate RdataReads(d: bytes, start: nat, rtype: u16, i: nat) {
    match ShapeOf(rtype)
    case None => false
    case Some(s) =>
      || (start <= i < start + s.prefix && i < |d|)
      || NamesRead(d, start + s.prefix, s.names, i)
      || (var list := ParseNames(d, start + s.prefix, s.names);
          list.Some? && list.value.next <= i < list.value.next + s.suffix && i < |d|)
  }

  /** `e` has the byte of `d` at `i`. */
  predicate Same(d: bytes, e: bytes, i: nat) {
    i < |d| && i < |e| && d[i] == e[i]
  }

  lemma {:induction false} NamesFrame(d: bytes, e: bytes, o: nat, n: nat)
    requires |d| <= |e|
    requires forall i: nat :: NamesRead(d, o, n, i) ==> Same(d, e, i)
    requires |d| == |e| || ParseNames(d, o, n).Some?
    ensures ParseNames(e, o, n) == ParseNames(d, o, n)
    decreases n
  {
    hide ParseName, NameReads;
    if n > 0 {
      assert NameAgrees(d, e, o, MAX_POINTER_HOPS) by {
        forall i: nat | NameReads(d, o, MAX_POINTER_HOPS, i) ensures i < |d| && i < |e| && d[i] == e[i] {
          assert NamesRead(d, o, n, i);
        }
      }
      NameFrame(d, e, o, MAX_POINTER_HOPS);
      var first := ParseName(d, o, MAX_POINTER_HOPS);
      if first.Some? {
        forall i: nat | NamesRead(d, first.value.next, n - 1, i) ensures Same(d, e, i) {
          assert NamesRead(d, o, n, i);
        }
        NamesFrame(d, e, first.value.next, n - 1);
      }
    }
  }

  lemma DecompressFrame(d: bytes, e: bytes, start: nat, rtype: u16)
    requires |d| <= |e|
    requires forall i: nat :: RdataReads(d, start, rtype, i) ==> Same(d, e, i)
    requires |d| == |e| || (ShapeOf(rtype).Some? ==> Decompress(d, start, rtype).Some?)
    ensures Decompress(e, start, rtype) == Decompress(d, start, rtype)
  {
    hide ParseNames, NamesRead, PrintNames;
    if ShapeOf(rtype).Some? {
      var s := ShapeOf(rtype).value;
      if start + s.prefix <= |d| {
        var p := start + s.prefix;
        forall i: nat | NamesRead(d, p, s.names, i) ensures Same(d, e, i) {
          assert RdataReads(d, start, rtype, i);
        }
        NamesFrame(d, e, p, s.names);
        SliceFrame(d, e, start, p);
        var list := ParseNames(d, p, s.names);
        if list.Some? && list.value.next + s.suffix <= |d| {
          SliceFrame(d, e, list.value.next, list.value.next + s.suffix);
        }
      }
    }
  }

  lemma SliceFrame(d: bytes, e: bytes, lo: nat, hi: nat)
    requires lo <= hi <= |d| <= |e|
    requires forall i :: lo <= i < hi ==> Same(d, e, i)
    ensures d[lo..hi] == e[lo..hi]
  {
    forall i | lo <= i < hi ensures d[i] == e[i] {
      assert Same(d, e, i);
    }
  }

  // ---------------------------------------------------------------------
  // Questions.

  predicate QuestionsRead(d: bytes, o: nat, n: nat, i: nat)
    decreases n
  {
    n > 0 &&
    (NameReads(d, o, MAX_POINTER_HOPS, i) ||
     (var first := ParseQuestion(d, o);
      first.Some? && QuestionsRead(d, first.value.next, n - 1, i)))
  }

  lemma QuestionFrame(d: bytes, e: bytes, o: nat)
    requires |d| <= |e| && ParseQuestion(d, o).Some?
    requires forall i: nat :: NameReads(d, o, MAX_POINTER_HOPS, i) ==> Same(d, e, i)
    requires forall i :: o <= i < ParseQuestion(d, o).value.next ==> Same(d, e, i)
    ensures ParseQuestion(e, o) == ParseQuestion(d, o)
  {
    hide ParseName, NameReads;
    NameFrame(d, e, o, MAX_POINTER_HOPS);
    var f := ParseName(d, o, MAX_POINTER_HOPS).value.next;
    assert Same(d, e, f) && Same(d, e, f + 1) && Same(d, e, f + 2) && Same(d, e, f + 3);
  }

  lemma {:induction false} QuestionsFrame(d: bytes, e: bytes, o: nat, n: nat)
    requires |d| <= |e| && o <= |d| && ParseQuestions(d, o, n).Some?
    requires forall i: nat :: QuestionsRead(d, o, n, i) ==> Same(d, e, i)
    requires forall i :: o <= i < ParseQuestions(d, o, n).value.next ==> Same(d, e, i)
    ensures ParseQuestions(e, o, n) == ParseQuestions(d, o, n)
    decreases n
  {
    hide ParseQuestion, NameReads;
    if n > 0 {
      forall i: nat | NameReads(d, o, MAX_POINTER_HOPS, i) ensures Same(d, e, i) {
        assert QuestionsRead(d, o, n, i);
      }
      QuestionFrame(d, e, o);
      var next := ParseQuestion(d, o).value.next;
      forall i: nat | QuestionsRead(d, next, n - 1, i) ensures Same(d, e, i) {
        assert QuestionsRead(d, o, n, i);
      }
      QuestionsFrame(d, e, next, n - 1);
    }
  }

  // ---------------------------------------------------------------------
  // Records, whose TTLs may have aged.

  /** What a TTL of `ttl` becomes after `elapsed` seconds. */
  function AgedTtl(rtype: u16, ttl: u32, elapsed: u32): u32 {
    if rtype == TYPE_OPT || elapsed == 0 then ttl
    else if ttl > elapsed then ttl - elapsed
    else 1
  }

  function Aged(a: Answer, elapsed: u32): Answer {
    a.(ttl := AgedTtl(a.rtype, a.ttl, elapsed))
  }

  function AgedAll(answers: seq<Answer>, elapsed: u32): (r: seq<Answer>)
    ensures |r| == |answers| && forall k :: 0 <= k < |r| ==> r[k] == Aged(answers[k], elapsed)
  {
    if answers == [] then [] else [Aged(answers[0], elapsed)] + AgedAll(answers[1..], elapsed)
  }

  /** Where the fixed fields of the record at `o` start. */
  function FieldsOf(d: bytes, o: nat): (f: nat)
    requires ParseAnswer(d, o).Some?
    ensures o < f && f + 10 <= ParseAnswer(d, o).value.next <= |d|
  {
    ParseName(d, o, MAX_POINTER_HOPS).value.next
  }

  /** Resolving the names of the `n` records at `o` inspects offset `i`. */
  predicate AnswersRead(d: bytes, o: nat, n: nat, i: nat)
    decreases n
  {
    n > 0 && ParseAnswer(d, o).Some? &&
    (|| NameReads(d, o, MAX_POINTER_HOPS, i)
     || RdataReads(d, FieldsOf(d, o) + 10, Get16(d, FieldsOf(d, o)), i)
     || AnswersRead(d, ParseAnswer(d, o).value.next, n - 1, i))
  }

  /** The bytes of the record at `o` of `d` are in `e` too, except that its TTL has aged. */
  predicate RecordAged(d: bytes, e: bytes, o: nat, elapsed: u32)
    requires |d| <= |e| && ParseAnswer(d, o).Some?
  {
    var f, next := FieldsOf(d, o), ParseAnswer(d, o).value.next;
    && (forall i :: o <= i < f + 4 ==> Same(d, e, i))
    && Get32(e, f + 4) == AgedTtl(Get16(d, f), Get32(d, f + 4), elapsed)
    && (forall i :: f + 8 <= i < next ==> Same(d, e, i))
  }

  /** The same for `n` records from `o` on. */
  predicate RecordsAged(d: bytes, e: bytes, o: nat, n: nat, elapsed: u32)
    requires |d| <= |e| && ParseAnswers(d, o, n).Some?
    decreases n
  {
    n > 0 ==> RecordAged(d, e, o, elapsed) && RecordsAged(d, e, ParseAnswer(d, o).value.next, n - 1, elapsed)
  }

  /** No DecompressRDATA call made for these records fails. */
  predicate AllDecompress(d: bytes, o: nat, n: nat)
    requires ParseAnswers(d, o, n).Some?
    decreases n
  {
    n > 0 ==>
      var f := FieldsOf(d, o);
      && (ShapeOf(Get16(d, f)).Some? ==> Decompress(d, f + 10, Get16(d, f)).Some?)
      && AllDecompress(d, ParseAnswer(d, o).value.next, n - 1)
  }

  lemma AnswerFrame(d: bytes, e: bytes, o: nat, elapsed: u32)
    requires |d| <= |e| && ParseAnswer(d, o).Some?
    requires forall i: nat :: NameReads(d, o, MAX_POINTER_HOPS, i) ==> Same(d, e, i)
    requires forall i: nat :: RdataReads(d, FieldsOf(d, o) + 10, Get16(d, FieldsOf(d, o)), i) ==> Same(d, e, i)
    requires RecordAged(d, e, o, elapsed)
    requires |d| == |e| || (ShapeOf(Get16(d, FieldsOf(d, o))).Some? ==> Decompress(d, FieldsOf(d, o) + 10, Get16(d, FieldsOf(d, o))).Some?)
    ensures ParseAnswer(e, o) ==
            Some(AnswerAt(Aged(ParseAnswer(d, o).value.answer, elapsed), ParseAnswer(d, o).value.next))
  {
    hide ParseName, NameReads, RdataReads, StoredRdata, Get16, Get32, AgedTtl;
    NameFrame(d, e, o, MAX_POINTER_HOPS);
    var f := ParseName(d, o, MAX_POINTER_HOPS).value.next;
    assert FieldsOf(d, o) == f;
    Get16Frame(d, e, f);
    Get16Frame(d, e, f + 2);
    Get16Frame(d, e, f + 8);
    StoredFrame(d, e, f + 10, Get16(d, f + 8), Get16(d, f));
  }

  lemma Get16Frame(d: bytes, e: bytes, o: nat)
    requires o + 2 <= |d| <= |e| && Same(d, e, o) && Same(d, e, o + 1)
    ensures Get16(e, o) == Get16(d, o)
  {
  }

  lemma StoredFrame(d: bytes, e: bytes, start: nat, length: nat, rtype: u16)
    requires start + length <= |d| <= |e|
    requires forall i: nat :: RdataReads(d, start, rtype, i) ==> Same(d, e, i)
    requires forall i :: start <= i < start + length ==> Same(d, e, i)
    requires |d| == |e| || (ShapeOf(rtype).Some? ==> Decompress(d, start, rtype).Some?)
    ensures StoredRdata(e, start, length, rtype) == StoredRdata(d, start, length, rtype)
  {
    hide Decompress, RdataReads;
    DecompressFrame(d, e, start, rtype);
    SliceFrame(d, e, start, start + length);
  }

  lemma {:induction false} AnswersFrame(d: bytes, e: bytes, o: nat, n: nat, elapsed: u32)
    requires |d| <= |e| && ParseAnswers(d, o, n).Some?
    requires forall i: nat :: AnswersRead(d, o, n, i) ==> Same(d, e, i)
    requires RecordsAged(d, e, o, n, elapsed)
    requires |d| == |e| || AllDecompress(d, o, n)
    ensures ParseAnswers(e, o, n) ==
            Some(AnswerList(AgedAll(ParseAnswers(d, o, n).value.answers, elapsed), ParseAnswers(d, o, n).value.next))
    decreases n
  {
    hide ParseAnswer, NameReads, RdataReads, Decompress, Aged;
    if n > 0 {
      forall i: nat | NameReads(d, o, MAX_POINTER_HOPS, i) ensures Same(d, e, i) {
        assert AnswersRead(d, o, n, i);
      }
      forall i: nat | RdataReads(d, FieldsOf(d, o) + 10, Get16(d, FieldsOf(d, o)), i) ensures Same(d, e, i) {
        assert AnswersRead(d, o, n, i);
      }
      AnswerFrame(d, e, o, elapsed);
      var first := ParseAnswer(d, o).value;
      forall i: nat | AnswersRead(d, first.next, n - 1, i) ensures Same(d, e, i) {
        assert AnswersRead(d, o, n, i);
      }
      AnswersFrame(d, e, first.next, n - 1, elapsed);
      var rest := ParseAnswers(d, first.next, n - 1).value;
      assert ([first.answer] + rest.answers)[1..] == rest.answers;
    }
  }

  // ---------------------------------------------------------------------
  // Nothing outside the buffer is ever inspected.

  lemma {:induction false} NameReadsInside(d: bytes, o: nat, hops: nat, i: nat)
    ensures NameReads(d, o, hops, i) ==> i < |d|
    decreases hops, |d| - o
  {
    if o < |d| && d[o] != 0 {
      if IsPointer(d[o]) {
        if o + 1 < |d| && hops > 0 {
          NameReadsInside(d, Target(d, o), hops - 1, i);
        }
      } else if LabelEnd(d, o) <= |d| {
        NameReadsInside(d, LabelEnd(d, o), hops, i);
      }
    }
  }

  lemma {:induction false} NamesReadInside(d: bytes, o: nat, n: nat, i: nat)
    ensures NamesRead(d, o, n, i) ==> i < |d|
    decreases n
  {
    hide ParseName, NameReads;
    NameReadsInside(d, o, MAX_POINTER_HOPS, i);
    if n > 0 && ParseName(d, o, MAX_POINTER_HOPS).Some? {
      NamesReadInside(d, ParseName(d, o, MAX_POINTER_HOPS).value.next, n - 1, i);
    }
  }

  lemma RdataReadsInside(d: bytes, start: nat, rtype: u16, i: nat)
    ensures RdataReads(d, start, rtype, i) ==> i < |d|
  {
    hide ParseNames, NamesRead;
    if ShapeOf(rtype).Some? {
      NamesReadInside(d, start + ShapeOf(rtype).value.prefix, ShapeOf(rtype).value.names, i);
    }
  }

  lemma {:induction false} QuestionReadsInside(d: bytes, o: nat, n: nat, i: nat)
    ensures QuestionsRead(d, o, n, i) ==> i < |d|
    decreases n
  {
    hide ParseQuestion, NameReads;
    NameReadsInside(d, o, MAX_POINTER_HOPS, i);
    if n > 0 && ParseQuestion(d, o).Some? {
      QuestionReadsInside(d, ParseQuestion(d, o).value.next, n - 1, i);
    }
  }

  lemma {:induction false} AnswerReadsInside(d: bytes, o: nat, n: nat, i: nat)
    ensures AnswersRead(d, o, n, i) ==> i < |d|
    decreases n
  {
    hide ParseAnswer, NameReads, RdataReads;
    NameReadsInside(d, o, MAX_POINTER_HOPS, i);
    if n > 0 && ParseAnswer(d, o).Some? {
      RdataReadsInside(d, FieldsOf(d, o) + 10, Get16(d, FieldsOf(d, o)), i);
      AnswerReadsInside(d, ParseAnswer(d, o).value.next, n - 1, i);
    }
  }
}
