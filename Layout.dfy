/** What the writer's layout promises: it finishes exactly when the value
    holds no non-finite double, and with indent factor 0 at indent 0 it
    writes the compact form, with no whitespace outside string literals. */
module Layout {
  import opened Text
  import opened Numbers
  import opened JsonValues
  import opened Rendering

  /** No number in `v` is a non-finite double. */
  predicate Finite(v: Value)
  {
    match v
    case Num(n) => !(n.Double? && !n.d.finite)
    case Arr(es) => forall e | e in es :: Finite(e)
    case Obj(ms) => forall m | m in ms :: Finite(m.1)
    case _ => true
  }

  /** `writeJsonValue` finishes exactly when the value is finite; any other
      value makes it raise JsonException part-way. */
  lemma {:induction false} ValueCompletes(v: Value, factor: Int32, indent: Int32)
    ensures RenderValue(v, factor, indent).complete <==> Finite(v)
    decreases v, 2
  {
    match v
    case Obj(ms) => ObjectCompletes(ms, indent, indent);
    case Arr(es) => ArrayCompletes(es, factor, indent);
    case _ =>
  }

  lemma {:induction false} ObjectCompletes(ms: Entries, factor: Int32, indent: Int32)
    ensures RenderObject(ms, factor, indent).complete <==> forall m | m in ms :: Finite(m.1)
    decreases Obj(ms), 1
  {
    if |ms| == 1 {
      assert ms[0] in ms;
      ValueCompletes(ms[0].1, factor, indent);
    } else if |ms| > 1 {
      MembersComplete(ms, 0, factor, Wrap32(indent + factor));
    }
    InOrder(ms);
  }

  /** Every member is some `ms[k]`. */
  lemma InOrder(ms: Entries)
    ensures (forall m | m in ms :: Finite(m.1)) <==> forall k | 0 <= k < |ms| :: Finite(ms[k].1)
  {
  }

  lemma {:induction false} MembersComplete(ms: Entries, j: nat, factor: Int32, indent: Int32)
    requires j <= |ms|
    ensures RenderMembers(ms, j, factor, indent).complete <==> forall k | j <= k < |ms| :: Finite(ms[k].1)
    decreases Obj(ms), 0, |ms| - j
  {
    if j < |ms| {
      assert ms[j] in ms;
      ValueCompletes(ms[j].1, factor, indent);
      MembersComplete(ms, j + 1, factor, indent);
    }
  }

  lemma {:induction false} ArrayCompletes(es: seq<Value>, factor: Int32, indent: Int32)
    ensures RenderArray(es, factor, indent).complete <==> forall e | e in es :: Finite(e)
    decreases Arr(es), 1
  {
    ElementsComplete(es, 0, factor, Wrap32(indent + factor));
  }

  lemma {:induction false} ElementsComplete(es: seq<Value>, j: nat, factor: Int32, indent: Int32)
    requires j <= |es|
    ensures RenderElements(es, j, factor, indent).complete <==> forall k | j <= k < |es| :: Finite(es[k])
    decreases Arr(es), 0, |es| - j
  {
    if j < |es| {
      ValueCompletes(es[j], factor, indent);
      ElementsComplete(es, j + 1, factor, indent);
    }
  }

  /** The compact JSON text of `v`: members and elements separated by a
      bare comma, a bare colon after each key, no line breaks and no
      indentation. */
  function Compact(v: Value): Text
    decreases v, 1
  {
    match v
    case Null => NULL_WORD
    case Bool(b) => if b then TRUE_WORD else FALSE_WORD
    case Num(n) => NumberText(n)
    case Str(s) => Quote(s)
    case Arr(es) => [LBRACKET] + CompactElements(es, 0) + [RBRACKET]
    case Obj(ms) => [LBRACE] + CompactMembers(ms, 0) + [RBRACE]
  }

  function CompactElements(es: seq<Value>, j: nat): Text
    requires j <= |es|
    decreases Arr(es), 0, |es| - j
  {
    if j == |es| then []
    else (if j > 0 then [COMMA] else []) + Compact(es[j]) + CompactElements(es, j + 1)
  }

  function CompactMembers(ms: Entries, j: nat): Text
    requires j <= |ms|
    decreases Obj(ms), 0, |ms| - j
  {
    if j == |ms| then []
    else
      assert ms[j] in ms;
      (if j > 0 then [COMMA] else []) + Quote(ms[j].0) + [COLON] + Compact(ms[j].1) + CompactMembers(ms, j + 1)
  }

  /** With indent factor 0 at indent 0, a finite value is written in its
      compact form. An object at indent 0 is written compact whatever the
      factor, because `writeJsonValue` hands it the indent as its factor. */
  lemma {:induction false} CompactRendering(v: Value, factor: Int32)
    requires Finite(v)
    ensures RenderValue(v, 0, 0) == Done(Compact(v))
    ensures v.Obj? ==> RenderValue(v, factor, 0) == Done(Compact(v))
    decreases v, 2
  {
    match v
    case Obj(ms) => CompactObject(ms);
    case Arr(es) => CompactArray(es);
    case _ =>
  }

  lemma {:induction false} CompactObject(ms: Entries)
    requires forall m | m in ms :: Finite(m.1)
    ensures RenderObject(ms, 0, 0) == Done([LBRACE] + CompactMembers(ms, 0) + [RBRACE])
    decreases Obj(ms), 1
  {
    if |ms| == 1 {
      assert ms[0] in ms;
      CompactRendering(ms[0].1, 0);
      assert CompactMembers(ms, 1) == [];
      Enclosed([LBRACE] + Quote(ms[0].0) + [COLON], Done(Compact(ms[0].1)), [RBRACE]);
    } else if |ms| > 1 {
      InOrder(ms);
      CompactMembersRendering(ms, 0);
      Enclosed([LBRACE], Done(CompactMembers(ms, 0)), [RBRACE]);
    }
  }

  lemma {:induction false} CompactMembersRendering(ms: Entries, j: nat)
    requires j <= |ms|
    requires forall k | j <= k < |ms| :: Finite(ms[k].1)
    ensures RenderMembers(ms, j, 0, 0) == Done(CompactMembers(ms, j))
    decreases Obj(ms), 0, |ms| - j
  {
    if j < |ms| {
      assert ms[j] in ms;
      CompactRendering(ms[j].1, 0);
      CompactMembersRendering(ms, j + 1);
      CompactMemberStep(ms, j);
    }
  }

  /** One pass of the member loop: a compact member after a compact rest. */
  lemma CompactMemberStep(ms: Entries, j: nat)
    requires j < |ms|
    requires RenderValue(ms[j].1, 0, 0) == Done(Compact(ms[j].1))
    requires RenderMembers(ms, j + 1, 0, 0) == Done(CompactMembers(ms, j + 1))
    ensures RenderMembers(ms, j, 0, 0) == Done(CompactMembers(ms, j))
  {
    MembersStep(ms, j, 0, 0);
    var head := (if j > 0 then [COMMA] else []) + Quote(ms[j].0) + [COLON];
    assert MemberHead(j > 0, 0, 0, ms[j].0) == head;
    AppendAssociates(head, Compact(ms[j].1), CompactMembers(ms, j + 1));
  }

  lemma {:induction false} CompactArray(es: seq<Value>)
    requires forall e | e in es :: Finite(e)
    ensures RenderArray(es, 0, 0) == Done([LBRACKET] + CompactElements(es, 0) + [RBRACKET])
    decreases Arr(es), 1
  {
    CompactElementsRendering(es, 0);
    Enclosed([LBRACKET], Done(CompactElements(es, 0)), [RBRACKET]);
  }

  lemma {:induction false} CompactElementsRendering(es: seq<Value>, j: nat)
    requires j <= |es|
    requires forall e | e in es :: Finite(e)
    ensures RenderElements(es, j, 0, 0) == Done(CompactElements(es, j))
    decreases Arr(es), 0, |es| - j
  {
    if j < |es| {
      CompactRendering(es[j], 0);
      CompactElementsRendering(es, j + 1);
      var head := if j > 0 then [COMMA] else [];
      assert ElementHead(j > 0, 0, 0) == head;
      AppendAssociates(head, Compact(es[j]), CompactElements(es, j + 1));
    }
  }

  /** No unit of `t` is below the space: no control unit, so no raw line
      break. */
  predicate Printable(t: Text)
  {
    forall k | 0 <= k < |t| :: t[k] >= SPACE
  }

  /** `t` never has `<` followed by `/`. */
  predicate NoCloseTag(t: Text)
  {
    forall k | 0 <= k < |t| - 1 :: !(t[k] == LESS && t[k + 1] == SLASH)
  }

  /** A unit `writeString` writes for `u`: never a control unit, a `<` only
      when it copies `u == '<'`, and a leading `/` only when it copies a
      `/` that does not follow `<`. */
  lemma EscapeUnitSafe(u: CodeUnit, p: CodeUnit)
    ensures Printable(EscapeUnit(u, p)) && NoCloseTag(EscapeUnit(u, p))
    ensures EscapeUnit(u, p)[|EscapeUnit(u, p)| - 1] == LESS ==> u == LESS
    ensures EscapeUnit(u, p)[0] == SLASH ==> u == SLASH && p != LESS
  {
    if !(u == BACKSLASH || u == QUOTE || (u == SLASH && p == LESS)) && ControlLetter(u).None? && NeedsHex(u) {
      var h := HexEscape(u);
      forall k | 0 <= k < 4
        ensures h[k] >= SPACE && h[k] != LESS
      {
        assert Digit(h[k], 16) >= 0;
      }
    }
  }

  /** Joining two printable texts gives a printable text. */
  lemma PrintableJoin(e: Text, r: Text)
    requires Printable(e) && Printable(r)
    ensures Printable(e + r)
  {
    forall k | 0 <= k < |e + r|
      ensures (e + r)[k] >= SPACE
    {
      if k >= |e| {
        assert (e + r)[k] == r[k - |e|];
      }
    }
  }

  /** Joining two texts without `</` gives one without `</` unless the
      first ends with `<` and the second starts with `/`. */
  lemma NoCloseTagJoin(e: Text, r: Text)
    requires NoCloseTag(e) && NoCloseTag(r)
    requires |e| > 0 && |r| > 0 ==> !(e[|e| - 1] == LESS && r[0] == SLASH)
    ensures NoCloseTag(e + r)
  {
    var t := e + r;
    forall k | 0 <= k < |t| - 1
      ensures !(t[k] == LESS && t[k + 1] == SLASH)
    {
      if k + 1 < |e| {
        assert t[k] == e[k] && t[k + 1] == e[k + 1];
      } else if k + 1 == |e| {
        assert t[k] == e[k] && t[k + 1] == r[0];
      } else {
        assert t[k] == r[k - |e|] && t[k + 1] == r[k - |e| + 1];
      }
    }
  }

  /** The text `writeString` writes between the quotes has no unit below
      the space, so no raw line break, and never `</`, so it cannot close
      an HTML script element. */
  lemma {:induction false} EscapedSafe(s: Text, i: nat)
    requires i <= |s|
    ensures Printable(Escaped(s, i)) && NoCloseTag(Escaped(s, i))
    ensures |Escaped(s, i)| > 0 && Escaped(s, i)[0] == SLASH ==> s[i] == SLASH && PreviousChar(s, i) != LESS
    decreases |s| - i
  {
    if i < |s| {
      var e, r := EscapeUnit(s[i], PreviousChar(s, i)), Escaped(s, i + 1);
      EscapedStep(s, i);
      EscapeUnitSafe(s[i], PreviousChar(s, i));
      EscapedSafe(s, i + 1);
      PrintableJoin(e, r);
      if |r| > 0 && r[0] == SLASH {
        assert PreviousChar(s, i + 1) == s[i];
      }
      NoCloseTagJoin(e, r);
    }
  }

  /** What `writeString` writes: no control unit and no `</` anywhere in
      it, quotes included. */
  lemma QuoteSafe(s: Text)
    ensures Printable(Quote(s)) && NoCloseTag(Quote(s))
  {
    EscapedSafe(s, 0);
    var e := Escaped(s, 0);
    PrintableJoin([QUOTE], e);
    NoCloseTagJoin([QUOTE], e);
    PrintableJoin([QUOTE] + e, [QUOTE]);
    NoCloseTagJoin([QUOTE] + e, [QUOTE]);
  }
}
