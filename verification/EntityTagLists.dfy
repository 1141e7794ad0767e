/** Entity-tag lists as section 5.6.1 of RFC 9110 asks recipients to read them, with elements that may
    be empty, against the parser, which admits none. */
module EntityTagLists {
  import opened Common
  import opened EntityTags

  function PrintElement(e: Option<EntityTag>): string {
    if e.Some? then PrintTag(e.value) else ""
  }

  /** Elements separated by commas, each with its own optional whitespace on both sides. */
  function StandardList(es: seq<Option<EntityTag>>, pads: seq<Pad>): string
    requires |es| == |pads| > 0
    decreases |es|, 1
  {
    pads[0].before + (PrintElement(es[0]) + (pads[0].after + StandardTail(es, pads)))
  }

  function StandardTail(es: seq<Option<EntityTag>>, pads: seq<Pad>): string
    requires |es| == |pads| > 0
    decreases |es|, 0
  {
    if |es| == 1 then "" else "," + StandardList(es[1..], pads[1..])
  }

  predicate NoneEmpty(es: seq<Option<EntityTag>>) {
    forall i :: 0 <= i < |es| ==> es[i].Some?
  }

  predicate LegalElements(es: seq<Option<EntityTag>>) {
    forall i :: 0 <= i < |es| && es[i].Some? ==> LegalTag(es[i].value)
  }

  function Present(es: seq<Option<EntityTag>>): seq<EntityTag> {
    if es == [] then []
    else if es[0].Some? then [es[0].value] + Present(es[1..])
    else Present(es[1..])
  }

  lemma {:induction false} FullListIsPrinted(es: seq<Option<EntityTag>>, pads: seq<Pad>)
    requires |es| == |pads| > 0 && NoneEmpty(es)
    ensures |Present(es)| == |es| && forall i :: 0 <= i < |es| ==> Present(es)[i] == es[i].value
    ensures StandardList(es, pads) == Printed(Present(es), pads)
    decreases |es|
  {
    if |es| > 1 {
      FullListIsPrinted(es[1..], pads[1..]);
      assert Present(es)[1..] == Present(es[1..]);
    } else {
      assert Present(es) == [es[0].value] + Present([]);
    }
  }

  lemma {:induction false} TailStartsElement(es: seq<Option<EntityTag>>, pads: seq<Pad>)
    requires |es| == |pads| > 0
    ensures var tail := StandardTail(es, pads); tail != "" ==> tail[0] == ','
  {
  }

  /** Reading starts at the first element, past its whitespace. */
  lemma {:induction false} SkipsToElement(es: seq<Option<EntityTag>>, pads: seq<Pad>)
    requires |es| == |pads| > 0 && PadsOk(pads) && LegalElements(es)
    ensures es[0].Some? ==>
      SkipOws(StandardList(es, pads)) == PrintTag(es[0].value) + (pads[0].after + StandardTail(es, pads))
    ensures es[0].None? ==> SkipOws(StandardList(es, pads)) == StandardTail(es, pads)
  {
    hide PrintTag, LegalTag, ReadTag;
    TailStartsElement(es, pads);
    var tail := StandardTail(es, pads);
    if es[0].Some? {
      ReadsPrinted(es[0].value, pads[0].after + tail);
      SkipsPadding(pads[0].before, PrintTag(es[0].value) + (pads[0].after + tail));
    } else {
      assert pads[0].before + ("" + (pads[0].after + tail)) == (pads[0].before + pads[0].after) + tail;
      SkipsPadding(pads[0].before + pads[0].after, tail);
    }
  }

  lemma {:induction false} EmptyElementStops(es: seq<Option<EntityTag>>, pads: seq<Pad>, acc: seq<EntityTag>)
    requires |es| == |pads| > 0 && PadsOk(pads) && LegalElements(es) && !NoneEmpty(es)
    ensures ParseTags(SkipOws(StandardList(es, pads)), acc).Err?
    decreases |es|
  {
    hide PrintTag, LegalTag;
    SkipsToElement(es, pads);
    TailStartsElement(es, pads);
    if es[0].Some? {
      hide ReadTag;
      var rest := StandardList(es[1..], pads[1..]);
      ReadsPrinted(es[0].value, pads[0].after + StandardTail(es, pads));
      SkipsPadding(pads[0].after, "," + rest);
      assert ("," + rest)[1..] == rest;
      EmptyElementStops(es[1..], pads[1..], acc + [es[0].value]);
    }
  }

  /** A standard list parses to its tags if and only if no element is empty and there are at most 32;
      with an empty element it is always an error, never another list. */
  lemma {:induction false} StandardListsParse(es: seq<Option<EntityTag>>, pads: seq<Pad>)
    requires |es| == |pads| > 0 && PadsOk(pads) && LegalElements(es)
    ensures ParseTagList(StandardList(es, pads)) == Ok(Tags(Present(es))) <==> NoneEmpty(es) && |es| <= MAX_ENTITY_TAGS
    ensures !NoneEmpty(es) ==> ParseTagList(StandardList(es, pads)).Err?
  {
    hide ParseTags, PrintTag, Printed;
    var text := StandardList(es, pads);
    if NoneEmpty(es) {
      FullListIsPrinted(es, pads);
      TagListIsExact(text, Present(es));
      if |es| <= MAX_ENTITY_TAGS {
        assert Lists(text, Present(es), pads);
      }
    } else {
      EmptyElementStops(es, pads, []);
      NotWildcard(es, pads);
    }
  }

  lemma {:induction false} NotWildcard(es: seq<Option<EntityTag>>, pads: seq<Pad>)
    requires |es| == |pads| > 0 && PadsOk(pads) && LegalElements(es)
    ensures var s := SkipOws(StandardList(es, pads)); s != "" ==> s[0] != '*'
  {
    hide ReadTag;
    SkipsToElement(es, pads);
    TailStartsElement(es, pads);
    if es[0].Some? {
      ReadsPrinted(es[0].value, pads[0].after + StandardTail(es, pads));
    }
  }

  /** For instance, two adjacent commas. */
  lemma AdjacentCommasAreRefused()
    ensures ParseTagList("\"a\",,\"b\"").Err?
  {
    var es := [Some(EntityTag(false, "a")), None, Some(EntityTag(false, "b"))];
    var pads := [Pad("", ""), Pad("", ""), Pad("", "")];
    assert es[1].None?;
    StandardListsParse(es, pads);
    assert es[1..] == [None, Some(EntityTag(false, "b"))] && es[1..][1..] == [Some(EntityTag(false, "b"))];
    assert pads[1..] == [Pad("", ""), Pad("", "")] && pads[1..][1..] == [Pad("", "")];
    assert StandardList(es[1..][1..], pads[1..][1..]) == "\"b\"";
    assert StandardList(es[1..], pads[1..]) == ",\"b\"";
    assert StandardList(es, pads) == "\"a\",,\"b\"";
  }

  // ---- characters beyond ASCII ----

  /** A header is refused if any of its lines holds a character that is not visible ASCII, space or tab,
      even where the tags themselves would be legal. */
  lemma {:induction false} InvisibleLineIsRefused(lines: seq<string>, i: nat)
    requires i < |lines| && !Visible(lines[i])
    ensures ParseHeader(lines).Err?
  {
    hide Visible;
    FitsTogether(lines);
  }

  /** For instance, a tag with a letter that section 8.8.3 of RFC 9110 admits as obs-text: the list parser
      takes it, the header does not. */
  lemma ObsTextIsRefused()
    ensures ParseTagList("\"\U{E9}\"") == Ok(Tags([EntityTag(false, "\U{E9}")]))
    ensures ParseHeader(["\"\U{E9}\""]).Err?
  {
    var tag := EntityTag(false, "\U{E9}");
    var line := "\"\U{E9}\"";
    var pads := [Pad("", "")];
    assert Printed([tag], pads) == line;
    assert Lists(line, [tag], pads);
    TagListIsExact(line, [tag]);
    assert line[1] == '\U{E9}';
    InvisibleLineIsRefused([line], 0);
  }
}
