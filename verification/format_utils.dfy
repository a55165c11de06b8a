/** The text helpers of the modular front end: the badge classes of a
    status and a priority, truncation with an ellipsis, the conversion of a
    label into an HTML id, and the placeholder of an empty table cell.

    The `Intl` number formatters are left to the browser. Unicode
    decomposition (`normalize('NFD')`) enters as a parameter giving the
    canonical decomposition of each character beyond ASCII; ASCII
    characters decompose to themselves. */
module FormatUtils {
  import opened Wrappers
  import Text
  import Records

  // ---------------------------------------------------------------------
  // Badge classes
  // ---------------------------------------------------------------------

  const STATUS_PENDENTE := "status-pendente"
  const STATUS_APROVADO := "status-aprovado"
  const STATUS_RECUSADO := "status-recusado"
  const STATUS_REVISAO := "status-revisao"

  /** `getStatusColor`: the class of each of the four statuses; anything
      else is shown as pending. */
  function StatusColor(status: string): (r: string)
    ensures r in {STATUS_PENDENTE, STATUS_APROVADO, STATUS_RECUSADO, STATUS_REVISAO}
    ensures status == Records.APROVADO <==> r == STATUS_APROVADO
    ensures status == Records.RECUSADO <==> r == STATUS_RECUSADO
    ensures status == Records.EM_REVISAO <==> r == STATUS_REVISAO
    ensures r == STATUS_PENDENTE <==> status !in {Records.APROVADO, Records.RECUSADO, Records.EM_REVISAO}
  {
    var table := map[
      Records.PENDENTE := STATUS_PENDENTE,
      Records.APROVADO := STATUS_APROVADO,
      Records.RECUSADO := STATUS_RECUSADO,
      Records.EM_REVISAO := STATUS_REVISAO];
    if status in table then table[status] else STATUS_PENDENTE
  }

  const PRIORITY_HIGH := "priority-high"
  const PRIORITY_MEDIUM := "priority-medium"
  const PRIORITY_LOW := "priority-low"

  /** `getPriorityColor`: Alta, Média and Baixa; anything else is medium. */
  function PriorityColor(priority: string): (r: string)
    ensures r in {PRIORITY_HIGH, PRIORITY_MEDIUM, PRIORITY_LOW}
    ensures priority == "Alta" <==> r == PRIORITY_HIGH
    ensures priority == "Baixa" <==> r == PRIORITY_LOW
    ensures r == PRIORITY_MEDIUM <==> priority != "Alta" && priority != "Baixa"
  {
    var table := map["Alta" := PRIORITY_HIGH, "Média" := PRIORITY_MEDIUM, "Baixa" := PRIORITY_LOW];
    if priority in table then table[priority] else PRIORITY_MEDIUM
  }

  // ---------------------------------------------------------------------
  // truncateText and formatTableCell
  // ---------------------------------------------------------------------

  const ELLIPSIS := "..."

  /** `truncateText`: an empty text, or one within the limit, comes back
      unchanged; a longer one is cut to `maxLength` characters (none for a
      negative limit, as `substring` clamps) and given an ellipsis. */
  function TruncateText(text: string, maxLength: int): (r: string)
    ensures text == "" || |text| <= maxLength ==> r == text
    ensures text != "" && |text| > maxLength ==>
      |r| == (if maxLength < 0 then 0 else maxLength) + 3
      && r[..|r| - 3] == text[..|r| - 3] && r[|r| - 3..] == ELLIPSIS
  {
    if text == "" || |text| <= maxLength then text
    else
      var keep := if maxLength < 0 then 0 else maxLength;
      text[..keep] + ELLIPSIS
  }

  /** Cutting a cut text again changes nothing. */
  lemma TruncateIdempotent(text: string, maxLength: int)
    requires maxLength >= 0
    ensures TruncateText(TruncateText(text, maxLength), maxLength) == TruncateText(text, maxLength)
  {
    if text != "" && |text| > maxLength {
      var once := TruncateText(text, maxLength);
      assert once[..maxLength] == text[..maxLength];
    }
  }

  /** `formatTableCell`: the text when it is truthy, the placeholder
      (by default "-") otherwise. `None` stands for `null`/`undefined`. */
  function FormatTableCell(text: Option<string>, emptyText: string := "-"): (r: string)
    ensures text.Some? && text.value != "" ==> r == text.value
    ensures text.None? || text.value == "" ==> r == emptyText
    ensures emptyText != "" ==> r != ""
  {
    if text.Some? && text.value != "" then text.value else emptyText
  }

  // ---------------------------------------------------------------------
  // textToId
  // ---------------------------------------------------------------------

  predicate IsAlnum(c: char) {
    'a' <= c <= 'z' || '0' <= c <= '9'
  }

  /** A character `textToId` can produce. */
  predicate IdChar(c: char) {
    IsAlnum(c) || c == '-'
  }

  predicate NoDoubleDash(s: string) {
    forall i :: 0 <= i < |s| - 1 ==> !(s[i] == '-' && s[i + 1] == '-')
  }

  /** An HTML id as `textToId` shapes it: lower-case letters, digits and
      single hyphens, with no hyphen at either end. */
  predicate WellShapedId(s: string) {
    (forall i :: 0 <= i < |s| ==> IdChar(s[i]))
    && NoDoubleDash(s)
    && (|s| > 0 ==> s[0] != '-' && s[|s| - 1] != '-')
  }

  /** The combining diacritical marks, U+0300..U+036F. */
  predicate IsMark(c: char) {
    '\U{0300}' <= c <= '\U{036F}'
  }

  /** `normalize('NFD')`: each character replaced by its canonical
      decomposition, the identity on ASCII. */
  function Decompose(s: string, nfd: char -> string): (r: string)
    ensures (forall i :: 0 <= i < |s| ==> s[i] < '\U{0080}') ==> r == s
  {
    if |s| == 0 then ""
    else (if s[0] < '\U{0080}' then [s[0]] else nfd(s[0])) + Decompose(s[1..], nfd)
  }

  /** `replace(/[\u0300-\u036f]/g, '')`. */
  function StripMarks(s: string): (r: string)
    ensures forall i :: 0 <= i < |r| ==> !IsMark(r[i])
    ensures (forall i :: 0 <= i < |s| ==> !IsMark(s[i])) ==> r == s
  {
    if |s| == 0 then ""
    else (if IsMark(s[0]) then "" else [s[0]]) + StripMarks(s[1..])
  }

  /** `replace(/[^a-z0-9]/g, '-')`. */
  function Hyphenate(s: string): (r: string)
    ensures |r| == |s|
    ensures forall i :: 0 <= i < |s| ==> r[i] == (if IsAlnum(s[i]) then s[i] else '-')
  {
    seq(|s|, i requires 0 <= i < |s| => if IsAlnum(s[i]) then s[i] else '-')
  }

  /** `replace(/-+/g, '-')`: every run of hyphens becomes one. */
  function CollapseDashes(s: string): (r: string)
    ensures |r| <= |s|
    ensures NoDoubleDash(r)
    ensures (forall i :: 0 <= i < |s| ==> IdChar(s[i])) ==> forall i :: 0 <= i < |r| ==> IdChar(r[i])
    ensures |s| > 0 ==> |r| > 0 && r[0] == s[0]
    ensures |s| > 0 ==> r[|r| - 1] == s[|s| - 1]
  {
    if |s| == 0 then ""
    else
      var rest := CollapseDashes(s[1..]);
      if s[0] == '-' && |rest| > 0 && rest[0] == '-' then rest else [s[0]] + rest
  }

  /** `replace(/^-|-$/g, '')`: one hyphen off each end. */
  function TrimDashes(s: string): (r: string)
    ensures |r| <= |s|
    ensures |s| > 0 && s[0] != '-' && s[|s| - 1] != '-' ==> r == s
  {
    var a := if |s| > 0 && s[0] == '-' then s[1..] else s;
    if |a| > 0 && a[|a| - 1] == '-' then a[..|a| - 1] else a
  }

  /** `textToId`: lower case, accents stripped, every other character a
      hyphen, runs of hyphens collapsed, and the ends trimmed. */
  function TextToId(text: string, nfd: char -> string): (r: string)
    ensures WellShapedId(r)
  {
    var h := CollapseDashes(Hyphenate(StripMarks(Decompose(Text.Lower(text), nfd))));
    TrimmedShape(h);
    TrimDashes(h)
  }

  lemma TrimmedShape(h: string)
    requires forall i :: 0 <= i < |h| ==> IdChar(h[i])
    requires NoDoubleDash(h)
    ensures WellShapedId(TrimDashes(h))
  {
    var a := if |h| > 0 && h[0] == '-' then h[1..] else h;
    assert forall i :: 0 <= i < |a| - 1 ==> !(a[i] == '-' && a[i + 1] == '-') by {
      if |h| > 0 && h[0] == '-' {
        assert forall i :: 0 <= i < |a| ==> a[i] == h[i + 1];
      }
    }
    assert |a| > 0 ==> a[0] != '-' by {
      if |h| > 0 && h[0] == '-' && |a| > 0 {
        assert a[0] == h[1];
      }
    }
    var r := TrimDashes(h);
    assert r == if |a| > 0 && a[|a| - 1] == '-' then a[..|a| - 1] else a;
    if |a| > 0 && a[|a| - 1] == '-' && |r| > 0 {
      assert r[|r| - 1] == a[|a| - 2];
    }
  }

  /** Already-shaped ids pass the collapse untouched. */
  lemma {:induction false} CollapseKeeps(s: string)
    requires NoDoubleDash(s)
    ensures CollapseDashes(s) == s
  {
    if |s| > 0 {
      var rest := s[1..];
      assert NoDoubleDash(rest) by {
        forall i | 0 <= i < |rest| - 1
          ensures !(rest[i] == '-' && rest[i + 1] == '-')
        {
          assert rest[i] == s[i + 1] && rest[i + 1] == s[i + 2];
        }
      }
      CollapseKeeps(rest);
      if |s| > 1 {
        assert rest[0] == s[1];
        assert !(s[0] == '-' && s[1] == '-');
      }
      assert [s[0]] + rest == s;
    }
  }

  /** Applying `textToId` to its own output changes nothing. */
  lemma TextToIdIdempotent(text: string, nfd: char -> string)
    ensures TextToId(TextToId(text, nfd), nfd) == TextToId(text, nfd)
  {
    var r := TextToId(text, nfd);
    assert forall i :: 0 <= i < |r| ==> IdChar(r[i]);
    assert Text.Lower(r) == r;
    assert Decompose(r, nfd) == r;
    assert forall i :: 0 <= i < |r| ==> !IsMark(r[i]);
    assert StripMarks(r) == r;
    assert Hyphenate(r) == r;
    CollapseKeeps(r);
    if |r| > 0 {
      assert TrimDashes(r) == r;
    }
  }

  /** A label made only of lower-case letters and digits is its own id. */
  lemma AlnumTextIsItsOwnId(text: string, nfd: char -> string)
    requires |text| > 0 && forall i :: 0 <= i < |text| ==> IsAlnum(text[i])
    ensures TextToId(text, nfd) == text
  {
    assert Text.Lower(text) == text;
    assert Decompose(text, nfd) == text;
    assert StripMarks(text) == text;
    assert Hyphenate(text) == text;
    assert NoDoubleDash(text);
    CollapseKeeps(text);
  }

  /** The letters and digits of a text, in order. */
  function Alnums(s: string): (r: string)
    ensures forall i :: 0 <= i < |r| ==> IsAlnum(r[i])
  {
    if |s| == 0 then "" else (if IsAlnum(s[0]) then [s[0]] else "") + Alnums(s[1..])
  }

  lemma {:induction false} AlnumsSnoc(s: string, c: char)
    ensures Alnums(s + [c]) == Alnums(s) + (if IsAlnum(c) then [c] else "")
  {
    if |s| > 0 {
      assert (s + [c])[1..] == s[1..] + [c];
      AlnumsSnoc(s[1..], c);
    } else {
      assert s + [c] == [c];
    }
  }

  lemma {:induction false} HyphenateKeepsAlnums(s: string)
    ensures Alnums(Hyphenate(s)) == Alnums(s)
  {
    if |s| > 0 {
      assert Hyphenate(s)[1..] == Hyphenate(s[1..]);
      HyphenateKeepsAlnums(s[1..]);
    }
  }

  lemma {:induction false} CollapseKeepsAlnums(s: string)
    ensures Alnums(CollapseDashes(s)) == Alnums(s)
  {
    if |s| > 0 {
      CollapseKeepsAlnums(s[1..]);
      var rest := CollapseDashes(s[1..]);
      if !(s[0] == '-' && |rest| > 0 && rest[0] == '-') {
        assert ([s[0]] + rest)[1..] == rest;
      }
    }
  }

  lemma TrimKeepsAlnums(s: string)
    ensures Alnums(TrimDashes(s)) == Alnums(s)
  {
    var a := if |s| > 0 && s[0] == '-' then s[1..] else s;
    assert Alnums(a) == Alnums(s);
    if |a| > 0 && a[|a| - 1] == '-' {
      assert a == a[..|a| - 1] + [a[|a| - 1]];
      AlnumsSnoc(a[..|a| - 1], '-');
    }
  }

  /** The letters and digits of the accent-stripped, lower-cased text all
      survive, in order: only the other characters turn into hyphens. */
  lemma TextToIdKeepsAlnums(text: string, nfd: char -> string)
    ensures Alnums(TextToId(text, nfd)) == Alnums(StripMarks(Decompose(Text.Lower(text), nfd)))
  {
    var folded := StripMarks(Decompose(Text.Lower(text), nfd));
    HyphenateKeepsAlnums(folded);
    CollapseKeepsAlnums(Hyphenate(folded));
    TrimKeepsAlnums(CollapseDashes(Hyphenate(folded)));
  }
}
