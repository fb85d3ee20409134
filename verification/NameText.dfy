// Names as dotted text: QnameAsString and SetQnameFromString.
module NameText {
  import opened Wire
  import opened Names
  import opened Text

  const HYPHEN: byte := 0x2D
  const UNDERSCORE: byte := 0x5F

  predicate IsAlnum(b: byte) {
    0x30 <= b <= 0x39 || 0x41 <= b <= 0x5A || 0x61 <= b <= 0x7A
  }

  predicate IsValidLabel(l: bytes) {
    && 0 < |l| <= MAX_LABEL && l[0] != HYPHEN && l[|l| - 1] != HYPHEN
    && forall b :: b in l ==> IsAlnum(b) || b == HYPHEN || b == UNDERSCORE
  }

  predicate AllValid(ls: Labels) {
    forall k :: 0 <= k < |ls| ==> IsValidLabel(ls[k])
  }

  function Valid(parts: Labels): (r: Labels)
    ensures AllValid(r)
  {
    if parts == [] then []
    else if IsValidLabel(parts[0]) then [parts[0]] + Valid(parts[1..])
    else Valid(parts[1..])
  }

  function WithoutTrailingDot(s: bytes): bytes {
    if |s| > 0 && s[|s| - 1] == DOT then s[..|s| - 1] else s
  }

  /** The labels that a text is taken for; parts that are not valid labels are dropped. */
  function LabelsOf(s: bytes): Labels {
    Valid(Split(WithoutTrailingDot(s), DOT))
  }

  /** Letters, digits, hyphen and underscore; no hyphen at either end. */
  predicate IsHostLabel(l: string) {
    && 1 <= |l| <= 63 && l[0] != '-' && l[|l| - 1] != '-'
    && forall k :: 0 <= k < |l| ==> 'a' <= l[k] <= 'z' || 'A' <= l[k] <= 'Z' || '0' <= l[k] <= '9' || l[k] == '-' || l[k] == '_'
  }

  /** The valid labels are the ones of section 2.3.1 of RFC 1035, with underscores and digits anywhere. */
  lemma ValidLabelExactly(l: bytes, text: string)
    requires |text| == |l| && forall k :: 0 <= k < |l| ==> text[k] as int == l[k] as int
    ensures IsValidLabel(l) <==> IsHostLabel(text)
  {
    if IsValidLabel(l) {
      forall k | 0 <= k < |l|
        ensures 'a' <= text[k] <= 'z' || 'A' <= text[k] <= 'Z' || '0' <= text[k] <= '9' || text[k] == '-' || text[k] == '_'
      {
        assert l[k] in l;
      }
    } else if 1 <= |l| <= 63 && l[0] != HYPHEN && l[|l| - 1] != HYPHEN {
      var b :| b in l && !(IsAlnum(b) || b == HYPHEN || b == UNDERSCORE);
      var k :| 0 <= k < |l| && l[k] == b;
      assert text[k] as int == b as int;
    }
  }

  /** Exactly the valid parts are kept, in order. */
  lemma {:induction false} ValidExactly(parts: Labels, part: bytes)
    ensures Valid([]) == []
    ensures Valid(parts + [part]) == Valid(parts) + if IsValidLabel(part) then [part] else []
  {
    hide IsValidLabel;
    if parts == [] {
      assert [part][1..] == [] && parts + [part] == [part];
    } else {
      ValidExactly(parts[1..], part);
      assert (parts + [part])[1..] == parts[1..] + [part];
    }
  }

  /** Any dotted text is cut at its dots, a trailing one aside. */
  lemma LabelsOfExactly(parts: Labels)
    requires parts != [] && forall k :: 0 <= k < |parts| ==> DOT !in parts[k]
    ensures LabelsOf(Join(parts, DOT) + [DOT]) == Valid(parts)
  {
    hide Split, Valid;
    var s := Join(parts, DOT);
    assert WithoutTrailingDot(s + [DOT]) == s;
    SplitJoin(parts, DOT);
  }

  lemma {:induction false} ValidKeepsValid(ls: Labels)
    requires AllValid(ls)
    ensures Valid(ls) == ls
  {
    hide IsValidLabel;
    if ls != [] {
      ValidKeepsValid(ls[1..]);
      assert [ls[0]] + ls[1..] == ls;
    }
  }

  lemma {:induction false} JoinEndsWell(ls: Labels)
    requires ls != [] && AllValid(ls)
    ensures Join(ls, DOT) != [] && Join(ls, DOT)[|Join(ls, DOT)| - 1] != DOT
  {
    if |ls| == 1 {
      assert ls[0][|ls[0]| - 1] in ls[0];
    } else {
      hide IsValidLabel;
      JoinEndsWell(ls[1..]);
    }
  }

  lemma ValidHasNoDot(ls: Labels)
    requires AllValid(ls)
    ensures forall k :: 0 <= k < |ls| ==> DOT !in ls[k]
  {
  }

  /** Text round trip: the dotted text of valid labels, with or without a trailing dot, gives the labels back. */
  lemma TextRoundTrip(ls: Labels)
    requires AllValid(ls)
    ensures LabelsOf(Join(ls, DOT)) == ls
    ensures LabelsOf(Join(ls, DOT) + [DOT]) == ls
  {
    hide IsValidLabel;
    var s := Join(ls, DOT);
    assert WithoutTrailingDot(s + [DOT]) == s;
    if ls == [] {
      assert Split(s, DOT) == [[]];
      EmptyIsDropped();
    } else {
      JoinEndsWell(ls);
      ValidHasNoDot(ls);
      SplitJoin(ls, DOT);
      ValidKeepsValid(ls);
    }
  }

  lemma EmptyIsDropped()
    ensures Valid([[]]) == []
  {
    var parts: Labels := [[]];
    assert parts[1..] == [];
  }

  method SetQnameFromString(s: bytes) returns (qname: Labels)
    ensures qname == LabelsOf(s) && AllValid(qname)
  {
    hide IsValidLabel, Split;
    qname := [];
    if s == [] {
      EmptyText();
      return;
    }
    var domain := s;
    if domain[|domain| - 1] == DOT {
      domain := domain[..|domain| - 1];
    }
    var parts := SplitText(domain, DOT);
    assert parts[0..] == parts;
    for i := 0 to |parts|
      invariant Valid(parts) == qname + Valid(parts[i..])
    {
      assert parts[i..][1..] == parts[i + 1..];
      if IsValidLabel(parts[i]) {
        assert qname + ([parts[i]] + Valid(parts[i + 1..])) == (qname + [parts[i]]) + Valid(parts[i + 1..]);
        qname := qname + [parts[i]];
      }
    }
    assert parts[|parts|..] == [] && qname + [] == qname;
  }

  lemma EmptyText()
    ensures LabelsOf([]) == []
  {
    EmptyIsDropped();
  }

  method QnameAsString(qname: Labels) returns (s: bytes)
    ensures s == Join(qname, DOT)
    ensures AllValid(qname) ==> LabelsOf(s) == qname
  {
    hide LabelsOf, AllValid;
    TextRoundTripIfValid(qname);
    s := [];
    if qname != [] {
      s := JoinText(qname, DOT);
    }
  }

  lemma TextRoundTripIfValid(ls: Labels)
    ensures AllValid(ls) ==> LabelsOf(Join(ls, DOT)) == ls
  {
    if AllValid(ls) {
      TextRoundTrip(ls);
    }
  }
}
