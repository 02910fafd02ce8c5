/**
 * The `find-colors` scan of content.js: for every element of the page and
 * every one of fourteen colour properties, the computed value contributes
 * colour candidates to an insertion-ordered set; the distinct candidates are
 * then filtered by length and by a round trip through the style engine, and
 * the survivors are sent, in first-insertion order, as `color-results`.
 *
 * The page is abstracted to the sequence of its elements' computed styles,
 * each a function from a property name to its computed value
 * (`getPropertyValue`), and the round trip of a candidate through a fresh
 * element's `backgroundColor` is the function `roundTrip`.
 */
module ColorScan {
  import opened JsText
  import ColorExtract

  /** The properties read from every element, in the order they are read. */
  const ColorProperties: seq<string> := [
    "color",
    "background-color",
    "border-color",
    "border-top-color",
    "border-right-color",
    "border-bottom-color",
    "border-left-color",
    "outline-color",
    "box-shadow",
    "text-shadow",
    "border-block-start-color",
    "border-block-end-color",
    "border-inline-start-color",
    "border-inline-end-color"
  ]

  /** The computed style of one element: `style.getPropertyValue(prop)`. */
  type Style = string -> string

  predicate IsShadow(prop: string) {
    prop == "box-shadow" || prop == "text-shadow"
  }

  /** Property values that contribute nothing. */
  predicate Skipped(value: string) {
    value == "" || value == "transparent" || value == "rgba(0, 0, 0, 0)" ||
    value == "none" || value == "initial" || value == "inherit"
  }

  // ---------------------------------------------------------------------
  // The insertion-ordered set

  /** `set.add(x)` on a `Set` kept as the sequence of its elements in
      insertion order. */
  function Add(colors: seq<string>, x: string): seq<string> {
    if x in colors then colors else colors + [x]
  }

  /** Adding the elements of `xs` one after the other. */
  function AddAll(colors: seq<string>, xs: seq<string>): seq<string>
    decreases |xs|
  {
    if xs == [] then colors else Add(AddAll(colors, xs[..|xs| - 1]), xs[|xs| - 1])
  }

  predicate NoDuplicates(s: seq<string>) {
    forall i, j :: 0 <= i < j < |s| ==> s[i] != s[j]
  }

  /** The index of the first occurrence of `x` in `xs`. */
  function FirstIndex(xs: seq<string>, x: string): (k: nat)
    requires x in xs
    ensures k < |xs| && xs[k] == x
    ensures forall j :: 0 <= j < k ==> xs[j] != x
  {
    if xs[0] == x then 0 else 1 + FirstIndex(xs[1..], x)
  }

  lemma AddAllSnoc(colors: seq<string>, xs: seq<string>, y: string)
    ensures AddAll(colors, xs + [y]) == Add(AddAll(colors, xs), y)
  {
    assert (xs + [y])[..|xs|] == xs;
  }

  lemma {:induction false} AddAllAppend(colors: seq<string>, xs: seq<string>, ys: seq<string>)
    ensures AddAll(colors, xs + ys) == AddAll(AddAll(colors, xs), ys)
    decreases |ys|
  {
    if ys == [] {
      assert xs + ys == xs;
    } else {
      var ys' := ys[..|ys| - 1];
      var y := ys[|ys| - 1];
      assert ys == ys' + [y];
      assert xs + ys == (xs + ys') + [y];
      AddAllSnoc(colors, xs + ys', y);
      AddAllAppend(colors, xs, ys');
      AddAllSnoc(AddAll(colors, xs), ys', y);
    }
  }

  /** Adding to an empty set keeps each value once, keeps every value, and
      orders the values by their first occurrence. */
  lemma {:induction false} AddAllDistinct(xs: seq<string>)
    ensures NoDuplicates(AddAll([], xs))
    ensures forall x :: x in AddAll([], xs) <==> x in xs
    ensures forall i, j :: 0 <= i < j < |AddAll([], xs)| ==>
              FirstIndex(xs, AddAll([], xs)[i]) < FirstIndex(xs, AddAll([], xs)[j])
    decreases |xs|
  {
    if xs != [] {
      var xs' := xs[..|xs| - 1];
      var y := xs[|xs| - 1];
      assert xs == xs' + [y];
      AddAllDistinct(xs');
      var d' := AddAll([], xs');
      forall x | x in xs'
        ensures FirstIndex(xs, x) == FirstIndex(xs', x)
      {
        FirstIndexSnoc(xs', y, x);
      }
      if y !in xs' {
        FirstIndexNew(xs', y);
      }
    }
  }

  lemma FirstIndexSnoc(xs: seq<string>, y: string, x: string)
    requires x in xs
    ensures FirstIndex(xs + [y], x) == FirstIndex(xs, x)
  {
    var k := FirstIndex(xs, x);
    assert (xs + [y])[k] == x;
    assert forall j :: 0 <= j < |xs| ==> (xs + [y])[j] == xs[j];
  }

  lemma FirstIndexNew(xs: seq<string>, y: string)
    requires y !in xs
    ensures FirstIndex(xs + [y], y) == |xs|
  {
    assert forall j :: 0 <= j < |xs| ==> (xs + [y])[j] == xs[j];
  }

  // ---------------------------------------------------------------------
  // The candidates of one property

  /** The `forEach` over shadow colours: each non-blank colour, trimmed. */
  function ShadowAdds(shadowColors: seq<string>): seq<string>
    decreases |shadowColors|
  {
    if shadowColors == [] then []
    else
      var color := shadowColors[|shadowColors| - 1];
      ShadowAdds(shadowColors[..|shadowColors| - 1]) + (if color != "" && Trim(color) != "" then [Trim(color)] else [])
  }

  /** The `forEach` over extracted colours: each colour, trimmed. */
  function TrimAll(colors: seq<string>): seq<string>
    decreases |colors|
  {
    if colors == [] then [] else TrimAll(colors[..|colors| - 1]) + [Trim(colors[|colors| - 1])]
  }

  /** What one property with computed value `value` adds to the set, in
      order. */
  function PropertyCandidates(prop: string, value: string): seq<string> {
    if Skipped(value) then []
    else if IsShadow(prop) then ShadowAdds(ColorExtract.Tokens(value))
    else if ColorExtract.Tokens(value) != [] then TrimAll(ColorExtract.Tokens(value))
    else [Trim(value)]
  }

  /** The contributions of `xs`, one after the other. */
  function FlatMap<T>(f: T -> seq<string>, xs: seq<T>): seq<string>
    decreases |xs|
  {
    if xs == [] then [] else FlatMap(f, xs[..|xs| - 1]) + f(xs[|xs| - 1])
  }

  /** What each property of an element adds. */
  function PropertyOf(style: Style): string -> seq<string> {
    prop => PropertyCandidates(prop, style(prop))
  }

  /** What one element adds, property by property. */
  function ElementCandidates(style: Style): seq<string> {
    FlatMap(PropertyOf(style), ColorProperties)
  }

  /** What the elements `styles` add, in document order. */
  function PageCandidates(styles: seq<Style>): seq<string> {
    FlatMap(ElementCandidates, styles)
  }

  lemma TakeSnoc<T>(xs: seq<T>, i: nat)
    requires i < |xs|
    ensures xs[..i + 1] == xs[..i] + [xs[i]]
  {
  }

  lemma FlatMapSnoc<T>(f: T -> seq<string>, xs: seq<T>, y: T)
    ensures FlatMap(f, xs + [y]) == FlatMap(f, xs) + f(y)
  {
    assert (xs + [y])[..|xs|] == xs;
  }

  /** A value is contributed exactly when one of the parts contributes it. */
  lemma {:induction false} FlatMapMember<T>(f: T -> seq<string>, xs: seq<T>, x: string)
    ensures x in FlatMap(f, xs) <==> exists k :: 0 <= k < |xs| && x in f(xs[k])
    decreases |xs|
  {
    if xs != [] {
      var n := |xs| - 1;
      var init := xs[..n];
      FlatMapMember(f, init, x);
      assert FlatMap(f, xs) == FlatMap(f, init) + f(xs[n]);
      if x in FlatMap(f, init) {
        var k :| 0 <= k < n && x in f(init[k]);
        assert init[k] == xs[k];
      }
      if exists k :: 0 <= k < |xs| && x in f(xs[k]) {
        var k :| 0 <= k < |xs| && x in f(xs[k]);
        if k < n {
          assert init[k] == xs[k];
        }
      }
    }
  }

  /** Strings that are non-empty and neither start nor end with white
      space. */
  predicate AllTrimmed(ts: seq<string>) {
    forall i :: 0 <= i < |ts| ==> ts[i] != "" && IsTrimmed(ts[i])
  }

  /** A non-empty sequence is its front followed by its last element. */
  lemma LastSplit(ts: seq<string>)
    requires ts != []
    ensures ts[..|ts| - 1] + [ts[|ts| - 1]] == ts
  {
  }

  /** The front of a sequence of trimmed strings is trimmed too, and so is
      its last element. */
  lemma AllTrimmedInit(ts: seq<string>)
    requires ts != [] && AllTrimmed(ts)
    ensures AllTrimmed(ts[..|ts| - 1])
    ensures ts[|ts| - 1] != "" && IsTrimmed(ts[|ts| - 1])
  {
    var init := ts[..|ts| - 1];
    forall i | 0 <= i < |init| ensures init[i] != "" && IsTrimmed(init[i]) {
      assert init[i] == ts[i];
    }
  }

  lemma ShadowAddsLast(ts: seq<string>)
    requires ts != [] && ts[|ts| - 1] != "" && Trim(ts[|ts| - 1]) != ""
    ensures ShadowAdds(ts) == ShadowAdds(ts[..|ts| - 1]) + [Trim(ts[|ts| - 1])]
  {
  }

  lemma TrimAllLast(ts: seq<string>)
    requires ts != []
    ensures TrimAll(ts) == TrimAll(ts[..|ts| - 1]) + [Trim(ts[|ts| - 1])]
  {
  }

  lemma {:induction false} ShadowAddsTrimmed(ts: seq<string>)
    requires AllTrimmed(ts)
    ensures ShadowAdds(ts) == ts
    decreases |ts|
  {
    if ts != [] {
      AllTrimmedInit(ts);
      ShadowAddsTrimmed(ts[..|ts| - 1]);
      TrimNoop(ts[|ts| - 1]);
      ShadowAddsLast(ts);
      LastSplit(ts);
    }
  }

  lemma {:induction false} TrimAllTrimmed(ts: seq<string>)
    requires AllTrimmed(ts)
    ensures TrimAll(ts) == ts
    decreases |ts|
  {
    if ts != [] {
      AllTrimmedInit(ts);
      TrimAllTrimmed(ts[..|ts| - 1]);
      TrimNoop(ts[|ts| - 1]);
      TrimAllLast(ts);
      LastSplit(ts);
    }
  }

  lemma TokensTrimmed(value: string)
    ensures AllTrimmed(ColorExtract.Tokens(value))
  {
    ColorExtract.TokensAreColors(value);
  }

  /** What a property contributes: nothing for a skipped value; the colour
      tokens of a shadow; for any other property its colour tokens, or its
      trimmed value when it holds none. */
  lemma PropertyCandidatesAre(prop: string, value: string)
    ensures Skipped(value) ==> PropertyCandidates(prop, value) == []
    ensures !Skipped(value) && IsShadow(prop) ==> PropertyCandidates(prop, value) == ColorExtract.Tokens(value)
    ensures !Skipped(value) && !IsShadow(prop) && ColorExtract.Tokens(value) != [] ==>
              PropertyCandidates(prop, value) == ColorExtract.Tokens(value)
    ensures !Skipped(value) && !IsShadow(prop) && ColorExtract.Tokens(value) == [] ==>
              PropertyCandidates(prop, value) == [Trim(value)]
  {
    if !Skipped(value) {
      TokensTrimmed(value);
      if IsShadow(prop) {
        ShadowAddsTrimmed(ColorExtract.Tokens(value));
      } else {
        TrimAllTrimmed(ColorExtract.Tokens(value));
      }
    }
  }

  // ---------------------------------------------------------------------
  // The validity filter

  /** The filter of `Array.from(colors)`: at least three UTF-16 code units, and
      a round trip through the style engine that yields a non-empty value
      other than transparent, `initial` or `inherit`. */
  predicate IsValidColor(color: string, roundTrip: string -> string) {
    color != "" && Utf16Length(color) >= 3 &&
    var computed := roundTrip(color);
    computed != "" && computed != "rgba(0, 0, 0, 0)" && computed != "transparent" &&
    computed != "initial" && computed != "inherit"
  }

  function ValidColors(colors: seq<string>, roundTrip: string -> string): seq<string>
    decreases |colors|
  {
    if colors == [] then []
    else
      var c := colors[|colors| - 1];
      ValidColors(colors[..|colors| - 1], roundTrip) + (if IsValidColor(c, roundTrip) then [c] else [])
  }

  /** The filter keeps exactly the valid colours, in their order. */
  lemma {:induction false} ValidColorsAre(colors: seq<string>, roundTrip: string -> string)
    requires NoDuplicates(colors)
    ensures NoDuplicates(ValidColors(colors, roundTrip))
    ensures forall x :: x in ValidColors(colors, roundTrip) <==> x in colors && IsValidColor(x, roundTrip)
    ensures forall i, j :: 0 <= i < j < |ValidColors(colors, roundTrip)| ==>
              FirstIndex(colors, ValidColors(colors, roundTrip)[i]) < FirstIndex(colors, ValidColors(colors, roundTrip)[j])
    decreases |colors|
  {
    if colors != [] {
      var cs := colors[..|colors| - 1];
      var c := colors[|colors| - 1];
      assert colors == cs + [c];
      assert NoDuplicates(cs);
      assert c !in cs;
      ValidColorsAre(cs, roundTrip);
      forall x | x in cs
        ensures FirstIndex(colors, x) == FirstIndex(cs, x)
      {
        FirstIndexSnoc(cs, c, x);
      }
      FirstIndexNew(cs, c);
    }
  }

  // ---------------------------------------------------------------------
  // The imperative scan

  lemma ShadowAddsSnoc(ts: seq<string>, j: nat)
    requires j < |ts|
    ensures ShadowAdds(ts[..j + 1])
         == ShadowAdds(ts[..j]) + (if ts[j] != "" && Trim(ts[j]) != "" then [Trim(ts[j])] else [])
  {
    assert ts[..j + 1][..j] == ts[..j];
  }

  lemma TrimAllSnoc(ts: seq<string>, j: nat)
    requires j < |ts|
    ensures TrimAll(ts[..j + 1]) == TrimAll(ts[..j]) + [Trim(ts[j])]
  {
    assert ts[..j + 1][..j] == ts[..j];
  }

  /** The callback run for one property of one element (lines 282-321): the
      colours it adds to `colors`. */
  method AddPropertyColors(colors: seq<string>, prop: string, value: string) returns (next: seq<string>)
    ensures next == AddAll(colors, PropertyCandidates(prop, value))
  {
    next := colors;
    if !Skipped(value) {
      if IsShadow(prop) {
        var shadowColors := ColorExtract.ExtractColorsFromValue(value);
        for j := 0 to |shadowColors|
          invariant next == AddAll(colors, ShadowAdds(shadowColors[..j]))
        {
          var color := shadowColors[j];
          ShadowAddsSnoc(shadowColors, j);
          if color != "" && Trim(color) != "" {
            AddAllSnoc(colors, ShadowAdds(shadowColors[..j]), Trim(color));
            next := Add(next, Trim(color));
          } else {
            assert ShadowAdds(shadowColors[..j]) + [] == ShadowAdds(shadowColors[..j]);
          }
        }
        assert shadowColors[..|shadowColors|] == shadowColors;
      } else {
        var extractedColors := ColorExtract.ExtractColorsFromValue(value);
        if |extractedColors| > 0 {
          for j := 0 to |extractedColors|
            invariant next == AddAll(colors, TrimAll(extractedColors[..j]))
          {
            var color := extractedColors[j];
            TrimAllSnoc(extractedColors, j);
            AddAllSnoc(colors, TrimAll(extractedColors[..j]), Trim(color));
            next := Add(next, Trim(color));
          }
          assert extractedColors[..|extractedColors|] == extractedColors;
        } else {
          AddAllSnoc(colors, [], Trim(value));
          next := Add(next, Trim(value));
        }
      }
    }
  }

  /** The `colorProperties.forEach` over one element (lines 281-323): the
      colours its properties `props` add to `colors`. */
  method AddElementColors(colors: seq<string>, style: Style, props: seq<string>) returns (next: seq<string>)
    ensures next == AddAll(colors, FlatMap(PropertyOf(style), props))
  {
    next := colors;
    for k := 0 to |props|
      invariant next == AddAll(colors, FlatMap(PropertyOf(style), props[..k]))
    {
      var prop := props[k];
      var value := style(prop);
      ghost var done := FlatMap(PropertyOf(style), props[..k]);
      TakeSnoc(props, k);
      FlatMapSnoc(PropertyOf(style), props[..k], prop);
      AddAllAppend(colors, done, PropertyCandidates(prop, value));
      next := AddPropertyColors(next, prop, value);
    }
    assert props[..|props|] == props;
  }

  /** The loop over the page's elements (lines 271-328): the set of the page's
      candidates, in first-insertion order. */
  method CollectColors(styles: seq<Style>) returns (colors: seq<string>)
    ensures colors == AddAll([], PageCandidates(styles))
  {
    colors := [];
    for i := 0 to |styles|
      invariant colors == AddAll([], FlatMap(ElementCandidates, styles[..i]))
    {
      var style := styles[i];
      ghost var before := FlatMap(ElementCandidates, styles[..i]);
      TakeSnoc(styles, i);
      FlatMapSnoc(ElementCandidates, styles[..i], style);
      AddAllAppend([], before, ElementCandidates(style));
      colors := AddElementColors(colors, style, ColorProperties);
    }
    assert styles[..|styles|] == styles;
  }

  /** The `find-colors` request: the valid distinct candidates, in
      first-insertion order, which the script sends as `color-results`. */
  method FindColors(styles: seq<Style>, roundTrip: string -> string) returns (validColors: seq<string>)
    ensures validColors == ValidColors(AddAll([], PageCandidates(styles)), roundTrip)
    ensures NoDuplicates(validColors)
    ensures forall x :: x in validColors <==> x in PageCandidates(styles) && IsValidColor(x, roundTrip)
  {
    var colors := CollectColors(styles);
    validColors := ValidColors(colors, roundTrip);
    AddAllDistinct(PageCandidates(styles));
    ValidColorsAre(colors, roundTrip);
  }

  /** The emitted list is ordered by first insertion, not sorted: of two
      emitted colours, the one first produced by the scan comes first. */
  lemma EmittedInScanOrder(styles: seq<Style>, roundTrip: string -> string)
    ensures forall i, j :: 0 <= i < j < |ValidColors(AddAll([], PageCandidates(styles)), roundTrip)| ==>
              var valid := ValidColors(AddAll([], PageCandidates(styles)), roundTrip);
              valid[i] in PageCandidates(styles) && valid[j] in PageCandidates(styles) &&
              FirstIndex(PageCandidates(styles), valid[i]) < FirstIndex(PageCandidates(styles), valid[j])
  {
    var all := PageCandidates(styles);
    var colors := AddAll([], all);
    var valid := ValidColors(colors, roundTrip);
    AddAllDistinct(all);
    ValidColorsAre(colors, roundTrip);
    forall i, j | 0 <= i < j < |valid|
      ensures FirstIndex(all, valid[i]) < FirstIndex(all, valid[j])
    {
      var a := FirstIndex(colors, valid[i]);
      var b := FirstIndex(colors, valid[j]);
      assert colors[a] == valid[i] && colors[b] == valid[j];
    }
  }

  /** A value comes from one element exactly when the computed value of one
      of the properties `props` contributes it. */
  lemma ElementCandidatesFrom(style: Style, props: seq<string>, x: string)
    ensures x in FlatMap(PropertyOf(style), props) <==>
      exists k :: 0 <= k < |props| && x in PropertyCandidates(props[k], style(props[k]))
  {
    FlatMapMember(PropertyOf(style), props, x);
    forall k | 0 <= k < |props|
      ensures PropertyOf(style)(props[k]) == PropertyCandidates(props[k], style(props[k]))
    {
    }
  }

  /** A candidate comes from some element: `x` is among the page's
      candidates exactly when one element contributes it (and, by
      `ElementCandidatesFrom`, one of that element's colour properties). */
  lemma {:induction false} PageCandidatesFrom(styles: seq<Style>, x: string)
    ensures x in PageCandidates(styles) <==>
      exists i :: 0 <= i < |styles| && x in ElementCandidates(styles[i])
  {
    FlatMapMember(ElementCandidates, styles, x);
  }
}
