/** Field extraction from one page of catalogue JSON: the product at a given index
    of `entities`, its id, name, brand, price and colour list, and the text
    clean-up applied to the serialised result. */
module Parser {
  import opened Lang
  import opened JsonTree
  import opened Products

  const ID_PATH: seq<string> := ["id"]
  const NAME_PATH: seq<string> := ["attributes", "name", "values", "label"]
  const BRAND_PATH: seq<string> := ["attributes", "brand", "values", "label"]
  const PRICE_PATH: seq<string> := ["priceRange", "min", "withTax"]
  const PRIMARY_COLORS_PATH: seq<string> := ["attributes", "colorDetail", "values"]

  // ---------------------------------------------------------------------------
  // Fixed-path fields of an entity

  /** `entity.id` as an int; fails exactly when the path does not end on a number. */
  function ParseIdFromEntity(entity: map<string, Json>): (r: Result<int32>)
    ensures r.ToOption() == IntAt(JObj(entity), ID_PATH)
  {
    var j :- Get(entity, "id");
    AsInt(j)
  }

  /** `entity.attributes.name.values.label` as a string. */
  function ParseNameFromEntity(entity: map<string, Json>): (r: Result<string>)
    ensures r.ToOption() == StringAt(JObj(entity), NAME_PATH)
  {
    var attributes :- ObjectField(entity, "attributes");
    var name :- ObjectField(attributes, "name");
    var values :- ObjectField(name, "values");
    var text :- Get(values, "label");
    AsString(text)
  }

  /** `entity.attributes.brand.values.label` as a string. */
  function ParseBrandFromEntity(entity: map<string, Json>): (r: Result<string>)
    ensures r.ToOption() == StringAt(JObj(entity), BRAND_PATH)
  {
    var attributes :- ObjectField(entity, "attributes");
    var brand :- ObjectField(attributes, "brand");
    var values :- ObjectField(brand, "values");
    var text :- Get(values, "label");
    AsString(text)
  }

  /** `entity.priceRange.min.withTax` as an int. */
  function ParsePriceFromEntity(entity: map<string, Json>): (r: Result<int32>)
    ensures r.ToOption() == IntAt(JObj(entity), PRICE_PATH)
  {
    var priceRange :- ObjectField(entity, "priceRange");
    var min :- ObjectField(priceRange, "min");
    var withTax :- Get(min, "withTax");
    AsInt(withTax)
  }

  // ---------------------------------------------------------------------------
  // Colours

  /** The `label` string of one colour object, if it has one. */
  function LabelOf(j: Json): Option<string> {
    StringAt(j, ["label"])
  }

  /** The `label` of every element, in array order; fails at the first element that
      is not an object with a string `label`. */
  function Labels(arr: seq<Json>): (r: Result<seq<string>>)
    ensures r.Ok? <==> forall k :: 0 <= k < |arr| ==> LabelOf(arr[k]).Some?
    ensures r.Ok? ==> |r.value| == |arr| && forall k :: 0 <= k < |arr| ==> LabelOf(arr[k]) == Some(r.value[k])
    decreases |arr|
  {
    if arr == [] then Ok([])
    else
      var o :- AsObject(arr[0]);
      var l :- Get(o, "label");
      var text :- AsString(l);
      var rest :- Labels(arr[1..]);
      Ok([text] + rest)
  }

  /** `parseColors`: the labels of the array's elements joined with `/`. */
  function ParseColors(arr: seq<Json>): (r: Result<string>)
    ensures r.Ok? <==> forall k :: 0 <= k < |arr| ==> LabelOf(arr[k]).Some?
    ensures arr == [] ==> r == Ok("")
    ensures |arr| == 1 && LabelOf(arr[0]).Some? ==> r == Ok(LabelOf(arr[0]).value)
  {
    var labels :- Labels(arr);
    Ok(Join(labels, "/"))
  }

  /** Splitting the joined colour at `/` gives back the labels in array order, when
      there is at least one label and none of them contains `/`. */
  lemma ParseColorsSplits(arr: seq<Json>)
    requires |arr| > 0
    requires forall k :: 0 <= k < |arr| ==> LabelOf(arr[k]).Some? && '/' !in LabelOf(arr[k]).value
    ensures ParseColors(arr).Ok?
    ensures var parts := Split(ParseColors(arr).value, '/');
      |parts| == |arr| && forall k :: 0 <= k < |arr| ==> Some(parts[k]) == LabelOf(arr[k])
  {
    var labels := Labels(arr).value;
    SplitJoin(labels, '/');
  }

  /** Labels `black` and `white` join to `black/white`. */
  lemma ParseColorsBlackWhite()
    ensures ParseColors([JObj(map["label" := JStr("black")]), JObj(map["label" := JStr("white")])])
            == Ok("black/white")
  {
    var black: map<string, Json> := map["label" := JStr("black")];
    var white: map<string, Json> := map["label" := JStr("white")];
    var arr := [JObj(black), JObj(white)];
    assert Get(white, "label") == Ok(JStr("white"));
    assert Get(black, "label") == Ok(JStr("black"));
    assert arr[1..] == [JObj(white)] && arr[1..][1..] == [];
    assert Labels(arr[1..][1..]) == Ok([]);
    assert Labels(arr[1..]).Ok? && Labels(arr[1..]).value[0] == "white";
    assert Labels(arr).Ok? && Labels(arr).value[0] == "black" && Labels(arr).value[1] == "white";
    assert Labels(arr).value == ["black", "white"];
    assert Join(["black", "white"], "/") == "black" + "/" + "white" == "black/white";
    assert ParseColors(arr) == Ok("black/white");
  }

  /** `entity.attributes.colorDetail.values` as an array. */
  function MainColorsArray(entity: map<string, Json>): (r: Result<seq<Json>>)
    ensures r.ToOption() == ArrayAt(JObj(entity), PRIMARY_COLORS_PATH)
  {
    var attributes :- ObjectField(entity, "attributes");
    var colorDetail :- ObjectField(attributes, "colorDetail");
    ArrayField(colorDetail, "values")
  }

  /** `attributes.colorDetail.values` joined: element 0 of every colour list. */
  function PrimaryColor(entity: map<string, Json>): Result<string> {
    var mainColorsArray :- MainColorsArray(entity);
    ParseColors(mainColorsArray)
  }

  /** `entity.advancedAttributes.has("siblings")`; fails if `advancedAttributes` is
      missing or not an object, even though siblings are optional. */
  function HasSiblings(entity: map<string, Json>): Result<bool> {
    var advanced :- ObjectField(entity, "advancedAttributes");
    Ok("siblings" in advanced)
  }

  /** Independent reading of the sibling path: the array at
      `advancedAttributes.siblings.values`, its first element's `fieldSet` array, and
      that array's first element, which must itself be an array. */
  function SiblingsAt(entity: map<string, Json>): Option<seq<Json>> {
    match ArrayAt(JObj(entity), ["advancedAttributes", "siblings", "values"])
    case None => None
    case Some(values) =>
      if values == [] then None
      else
        match ArrayAt(values[0], ["fieldSet"])
        case None => None
        case Some(fieldSet) =>
          if fieldSet != [] && fieldSet[0].JArr? then Some(fieldSet[0].elems) else None
  }

  /** The sibling variants: `advancedAttributes.siblings.values[0].fieldSet[0]`. It
      fails exactly where that path breaks: a missing `siblings` key, an empty
      `values` array and so on. */
  function SiblingArray(entity: map<string, Json>): (r: Result<seq<Json>>)
    ensures r.ToOption() == SiblingsAt(entity)
    ensures HasSiblings(entity) == Ok(false) ==> r == Err(MissingKey("siblings"))
    ensures ArrayAt(JObj(entity), ["advancedAttributes", "siblings", "values"]) == Some([]) ==>
              r == Err(IndexOutOfBounds(0, 0))
  {
    var advanced :- ObjectField(entity, "advancedAttributes");
    var siblings :- ObjectField(advanced, "siblings");
    var values :- ArrayField(siblings, "values");
    var first :- At(values, 0);
    var firstObject :- AsObject(first);
    var fieldSet :- ArrayField(firstObject, "fieldSet");
    var sets :- At(fieldSet, 0);
    AsArray(sets)
  }

  /** A sibling's `isSoldOut` flag. */
  function SoldOutFlag(sibling: Json): Result<bool> {
    var o :- AsObject(sibling);
    var flag :- Get(o, "isSoldOut");
    AsBool(flag)
  }

  /** A sibling's own colour: its `colorDetail` array (no `values` level) joined. */
  function SiblingColor(sibling: Json): Result<string> {
    var o :- AsObject(sibling);
    var colorDetail :- ArrayField(o, "colorDetail");
    ParseColors(colorDetail)
  }

  /** The colours the loop over `sibs` appends, defined element by element from the
      back, the order in which the loop grows its list. */
  function AvailableColors(sibs: seq<Json>): Result<seq<string>>
    decreases |sibs|
  {
    if sibs == [] then Ok([])
    else
      var earlier :- AvailableColors(sibs[..|sibs| - 1]);
      var last := sibs[|sibs| - 1];
      var soldOut :- SoldOutFlag(last);
      if soldOut then Ok(earlier)
      else
        var c :- SiblingColor(last);
        Ok(earlier + [c])
  }

  /** The colour list of an entity: the primary colour, then, when siblings exist,
      the colour of every sibling that is not sold out. */
  function ColorsOf(entity: map<string, Json>): (r: Result<seq<string>>)
    ensures r.Ok? ==> |r.value| >= 1 && PrimaryColor(entity) == Ok(r.value[0])
    ensures PrimaryColor(entity).Ok? && HasSiblings(entity) == Ok(false) ==> r == Ok([PrimaryColor(entity).value])
    ensures PrimaryColor(entity).Err? || HasSiblings(entity).Err? ==> r.Err?
    ensures PrimaryColor(entity).Ok? && HasSiblings(entity) == Ok(true) && SiblingArray(entity).Err? ==>
              r == Err(SiblingArray(entity).error)
  {
    var primary :- PrimaryColor(entity);
    var hasSiblings :- HasSiblings(entity);
    if !hasSiblings then Ok([primary])
    else
      var sibs :- SiblingArray(entity);
      var rest :- AvailableColors(sibs);
      Ok([primary] + rest)
  }

  // ---------------------------------------------------------------------------
  // Reference reading of the sibling filter: keep the unsold, then take colours

  /** The siblings whose `isSoldOut` is false, in their original order. */
  function Unsold(sibs: seq<Json>): (r: seq<Json>)
    ensures |r| <= |sibs|
    ensures forall k :: 0 <= k < |r| ==> SoldOutFlag(r[k]) == Ok(false)
    decreases |sibs|
  {
    if sibs == [] then []
    else (if SoldOutFlag(sibs[0]) == Ok(false) then [sibs[0]] else []) + Unsold(sibs[1..])
  }

  /** A sibling the loop can get past: it has a boolean `isSoldOut`, and an unsold one
      also has a `colorDetail` array of labelled colours. */
  predicate WellFormedSibling(sibling: Json) {
    SoldOutFlag(sibling).Ok? && (SoldOutFlag(sibling) == Ok(false) ==> SiblingColor(sibling).Ok?)
  }

  lemma {:induction false} UnsoldAppend(sibs: seq<Json>, x: Json)
    ensures Unsold(sibs + [x]) == Unsold(sibs) + (if SoldOutFlag(x) == Ok(false) then [x] else [])
    decreases |sibs|
  {
    if sibs == [] {
      assert sibs + [x] == [x];
    } else {
      assert (sibs + [x])[1..] == sibs[1..] + [x];
      UnsoldAppend(sibs[1..], x);
    }
  }

  /** The loop succeeds exactly when every sibling is well formed, and then appends
      one colour per unsold sibling, in order: a filter followed by a map. */
  lemma {:induction false} AvailableColorsFilterMap(sibs: seq<Json>)
    ensures AvailableColors(sibs).Ok? <==> forall k :: 0 <= k < |sibs| ==> WellFormedSibling(sibs[k])
    ensures AvailableColors(sibs).Ok? ==>
      var cs := AvailableColors(sibs).value;
      && |cs| == |Unsold(sibs)|
      && forall k :: 0 <= k < |cs| ==> SiblingColor(Unsold(sibs)[k]) == Ok(cs[k])
    decreases |sibs|
  {
    if sibs != [] {
      var init := sibs[..|sibs| - 1];
      var last := sibs[|sibs| - 1];
      assert sibs == init + [last];
      AvailableColorsFilterMap(init);
      UnsoldAppend(init, last);
      assert forall k :: 0 <= k < |init| ==> init[k] == sibs[k];
    }
  }

  /** Once a prefix of the siblings fails, the whole loop fails with the same error. */
  lemma {:induction false} AvailableColorsFailFast(sibs: seq<Json>, n: nat)
    requires n <= |sibs| && AvailableColors(sibs[..n]).Err?
    ensures AvailableColors(sibs) == AvailableColors(sibs[..n])
    decreases |sibs| - n
  {
    if n < |sibs| {
      assert sibs[..n + 1][..n] == sibs[..n];
      AvailableColorsFailFast(sibs, n + 1);
    } else {
      assert sibs[..n] == sibs;
    }
  }

  /** With siblings present, the colour list is the primary colour followed by the
      colour of each unsold sibling in order; its length is one more than the number
      of unsold siblings, so at most one more than the number of siblings. */
  lemma ColorsWithSiblings(entity: map<string, Json>, sibs: seq<Json>)
    requires PrimaryColor(entity).Ok?
    requires HasSiblings(entity) == Ok(true) && SiblingArray(entity) == Ok(sibs)
    ensures ColorsOf(entity).Ok? <==> forall k :: 0 <= k < |sibs| ==> WellFormedSibling(sibs[k])
    ensures ColorsOf(entity).Ok? ==>
      var cs := ColorsOf(entity).value;
      && |cs| == 1 + |Unsold(sibs)| <= 1 + |sibs|
      && cs[0] == PrimaryColor(entity).value
      && forall k :: 0 <= k < |Unsold(sibs)| ==> SiblingColor(Unsold(sibs)[k]) == Ok(cs[k + 1])
  {
    var primary := PrimaryColor(entity).value;
    AvailableColorsFilterMap(sibs);
    assert ColorsOf(entity) == (match AvailableColors(sibs)
                                case Ok(rest) => Ok([primary] + rest)
                                case Err(e) => Err(e));
  }

  /** A sold-out sibling followed by an unsold `red` one contributes exactly `red`:
      the sold-out one leaves no placeholder. */
  lemma SoldOutSiblingOmitted()
    ensures var soldOut := JObj(map["isSoldOut" := JBool(true)]);
            var red := JObj(map["isSoldOut" := JBool(false),
                                "colorDetail" := JArr([JObj(map["label" := JStr("red")])])]);
            AvailableColors([soldOut, red]) == Ok(["red"])
  {
    var soldOutFields: map<string, Json> := map["isSoldOut" := JBool(true)];
    var redLabel: map<string, Json> := map["label" := JStr("red")];
    var redFields: map<string, Json> := map["isSoldOut" := JBool(false), "colorDetail" := JArr([JObj(redLabel)])];
    var soldOut := JObj(soldOutFields);
    var red := JObj(redFields);
    assert Get(soldOutFields, "isSoldOut") == Ok(JBool(true));
    assert Get(redFields, "isSoldOut") == Ok(JBool(false));
    assert Get(redFields, "colorDetail") == Ok(JArr([JObj(redLabel)]));
    assert Get(redLabel, "label") == Ok(JStr("red"));
    var reds := [JObj(redLabel)];
    assert reds[1..] == [];
    assert Labels(reds[1..]) == Ok([]);
    assert Labels(reds).Ok? && Labels(reds).value[0] == "red";
    assert Labels(reds).value == ["red"];
    assert SiblingColor(red) == Ok("red");
    var sibs := [soldOut, red];
    assert sibs[..1] == [soldOut] && [soldOut][..0] == [];
    assert SoldOutFlag(soldOut) == Ok(true) && SoldOutFlag(red) == Ok(false);
    assert AvailableColors([soldOut]) == Ok([]);
    assert AvailableColors(sibs) == Ok([] + ["red"]);
    assert [] + ["red"] == ["red"];
  }

  /** `parseColorsFromEntity`: builds the colour list in place, primary colour first,
      then one entry per sibling that is not sold out. */
  method ParseColorsFromEntity(entity: map<string, Json>) returns (r: Result<seq<string>>)
    ensures r == ColorsOf(entity)
  {
    var colors: seq<string> := [];
    var mainColorsArray :- MainColorsArray(entity);
    var mainColor :- ParseColors(mainColorsArray);
    colors := colors + [mainColor];
    assert colors == [mainColor];

    assert PrimaryColor(entity) == Ok(mainColor);
    var advanced :- ObjectField(entity, "advancedAttributes");
    if "siblings" !in advanced {
      assert HasSiblings(entity) == Ok(false);
      return Ok(colors);
    }
    assert HasSiblings(entity) == Ok(true);
    var otherColorArray :- SiblingArray(entity);

    assert otherColorArray[..0] == [] && colors[1..] == [];
    for i := 0 to |otherColorArray|
      invariant |colors| >= 1 && colors[0] == mainColor
      invariant AvailableColors(otherColorArray[..i]) == Ok(colors[1..])
    {
      ghost var done := otherColorArray[..i + 1];
      assert done[..i] == otherColorArray[..i] && done[i] == otherColorArray[i];
      var soldOut := SoldOutFlag(otherColorArray[i]);
      if soldOut.Err? {
        assert AvailableColors(done) == Err(soldOut.error);
        AvailableColorsFailFast(otherColorArray, i + 1);
        return Err(soldOut.error);
      }
      if !soldOut.value {
        var additionalColor := SiblingColor(otherColorArray[i]);
        if additionalColor.Err? {
          assert AvailableColors(done) == Err(additionalColor.error);
          AvailableColorsFailFast(otherColorArray, i + 1);
          return Err(additionalColor.error);
        }
        assert AvailableColors(done) == Ok(colors[1..] + [additionalColor.value]);
        assert (colors + [additionalColor.value])[1..] == colors[1..] + [additionalColor.value];
        colors := colors + [additionalColor.value];
      } else {
        assert AvailableColors(done) == Ok(colors[1..]);
      }
    }
    assert otherColorArray[..|otherColorArray|] == otherColorArray;
    assert colors == [mainColor] + colors[1..];
    return Ok(colors);
  }

  // ---------------------------------------------------------------------------
  // One product

  /** `root.getAsJsonArray("entities").get(i).getAsJsonObject()`. */
  function EntityAt(root: map<string, Json>, i: int): Result<map<string, Json>> {
    var entities :- ArrayField(root, "entities");
    var entity :- At(entities, i);
    AsObject(entity)
  }

  /** The record `parseJson` returns for `(root, i)`: the default record for a root
      that is not an object, otherwise the five fields of entity `i`, failing at the
      first field that cannot be read. It depends on nothing but its arguments. */
  function ExtractProduct(root: Json, i: int): (r: Result<ProductView>)
    ensures !root.JObj? ==> r == Ok(Unset)
    ensures root.JObj? && ArrayAt(root, ["entities"]).None? ==> r.Err?
    ensures root.JObj? && ArrayAt(root, ["entities"]).Some? ==>
              var size := |ArrayAt(root, ["entities"]).value|;
              !(0 <= i < size) ==> r == Err(IndexOutOfBounds(i, size))
    ensures root.JObj? && r.Ok? ==> r.value.name.Some? && r.value.brand.Some? && r.value.color.Some?
  {
    if !root.JObj? then Ok(Unset)
    else
      var entity :- EntityAt(root.fields, i);
      var id :- ParseIdFromEntity(entity);
      var name :- ParseNameFromEntity(entity);
      var brand :- ParseBrandFromEntity(entity);
      var price :- ParsePriceFromEntity(entity);
      var colors :- ColorsOf(entity);
      Ok(ProductView(id, Some(name), Some(brand), price, Some(colors)))
  }

  /** A product extracted from an object root holds exactly the values at the fixed
      paths of entity `i`, and entity `i` exists. */
  lemma ExtractProductFields(root: Json, i: int)
    requires root.JObj? && ExtractProduct(root, i).Ok?
    ensures var es := ArrayAt(root, ["entities"]);
      && es.Some? && 0 <= i < |es.value| && es.value[i].JObj?
      && var e := es.value[i];
         var p := ExtractProduct(root, i).value;
         && IntAt(e, ID_PATH) == Some(p.id)
         && StringAt(e, NAME_PATH) == p.name
         && StringAt(e, BRAND_PATH) == p.brand
         && IntAt(e, PRICE_PATH) == Some(p.price)
         && ColorsOf(e.fields).ToOption() == p.color
  {
    var entity := EntityAt(root.fields, i).value;
    assert ParseIdFromEntity(entity).Ok? && ParseNameFromEntity(entity).Ok?;
    assert ParseBrandFromEntity(entity).Ok? && ParsePriceFromEntity(entity).Ok?;
  }

  /** Conversely, entity `i` with every fixed path present yields a product. */
  lemma ExtractProductSucceeds(root: Json, i: int)
    requires root.JObj?
    requires ArrayAt(root, ["entities"]).Some?
    requires 0 <= i < |ArrayAt(root, ["entities"]).value|
    requires var e := ArrayAt(root, ["entities"]).value[i];
      && e.JObj?
      && IntAt(e, ID_PATH).Some? && StringAt(e, NAME_PATH).Some? && StringAt(e, BRAND_PATH).Some?
      && IntAt(e, PRICE_PATH).Some? && ColorsOf(e.fields).Ok?
    ensures ExtractProduct(root, i).Ok?
  {
    var e := ArrayAt(root, ["entities"]).value[i];
    assert EntityAt(root.fields, i) == Ok(e.fields);
    assert ParseIdFromEntity(e.fields).Ok? && ParseNameFromEntity(e.fields).Ok?;
    assert ParseBrandFromEntity(e.fields).Ok? && ParsePriceFromEntity(e.fields).Ok?;
  }

  /** `parseJson`: a new product, filled field by field through its setters when the
      root is an object; the result is the record `ExtractProduct` describes. */
  method ParseJson(root: Json, productIndex: int) returns (r: Result<Product>)
    ensures r.Ok? <==> ExtractProduct(root, productIndex).Ok?
    ensures r.Err? ==> r.error == ExtractProduct(root, productIndex).error
    ensures r.Ok? ==> fresh(r.value) && r.value.View() == ExtractProduct(root, productIndex).value
  {
    var product := new Product();
    if root.JObj? {
      var entity :- EntityAt(root.fields, productIndex);
      var id :- ParseIdFromEntity(entity);
      product.SetId(id);
      var name :- ParseNameFromEntity(entity);
      product.SetName(Some(name));
      var brand :- ParseBrandFromEntity(entity);
      product.SetBrand(Some(brand));
      var price :- ParsePriceFromEntity(entity);
      product.SetPrice(price);
      var colors :- ParseColorsFromEntity(entity);
      product.SetColor(Some(colors));
    }
    return Ok(product);
  }

  // ---------------------------------------------------------------------------
  // Clean-up of the serialised text

  /** The six characters `\u0027`, the JSON escape of an apostrophe. */
  const APOSTROPHE_ESCAPE: string := ['\\', 'u', '0', '0', '2', '7']
  /** The six characters `\u0026`, the JSON escape of an ampersand. */
  const AMPERSAND_ESCAPE: string := ['\\', 'u', '0', '0', '2', '6']

  /** The clean-up as a single left-to-right scan: each apostrophe escape becomes
      `'`, each ampersand escape becomes `&`, and every other character is kept.
      The scan does not know JSON's escaped backslash `\\`: its second backslash
      can start a match (see `EscapedBackslashMisread`). */
  function Unescape(s: string): (r: string)
    ensures |r| <= |s|
    decreases |s|
  {
    if StartsWith(s, APOSTROPHE_ESCAPE) then "'" + Unescape(s[6..])
    else if StartsWith(s, AMPERSAND_ESCAPE) then "&" + Unescape(s[6..])
    else if s == [] then []
    else [s[0]] + Unescape(s[1..])
  }

  /** The two passes on text that starts with an apostrophe escape. */
  lemma TwoPassesApostropheHead(y: string)
    ensures ReplaceAll(ReplaceAll(APOSTROPHE_ESCAPE + y, APOSTROPHE_ESCAPE, "'"), AMPERSAND_ESCAPE, "&")
         == "'" + ReplaceAll(ReplaceAll(y, APOSTROPHE_ESCAPE, "'"), AMPERSAND_ESCAPE, "&")
  {
    var e := APOSTROPHE_ESCAPE + y;
    assert e[..6] == APOSTROPHE_ESCAPE && e[6..] == y;
    ReplaceAllSkips("'", ReplaceAll(y, APOSTROPHE_ESCAPE, "'"), AMPERSAND_ESCAPE, "&");
  }

  /** The two passes on text that starts with an ampersand escape: the first pass
      copies it, the second replaces it. */
  lemma TwoPassesAmpersandHead(y: string)
    ensures ReplaceAll(ReplaceAll(AMPERSAND_ESCAPE + y, APOSTROPHE_ESCAPE, "'"), AMPERSAND_ESCAPE, "&")
         == "&" + ReplaceAll(ReplaceAll(y, APOSTROPHE_ESCAPE, "'"), AMPERSAND_ESCAPE, "&")
  {
    var e := AMPERSAND_ESCAPE + y;
    assert e[..6] != APOSTROPHE_ESCAPE by { assert e[5] != APOSTROPHE_ESCAPE[5]; }
    assert e[1..] == AMPERSAND_ESCAPE[1..] + y;
    ReplaceAllSkips(AMPERSAND_ESCAPE[1..], y, APOSTROPHE_ESCAPE, "'");
    var b := ReplaceAll(y, APOSTROPHE_ESCAPE, "'");
    assert ReplaceAll(e, APOSTROPHE_ESCAPE, "'") == [e[0]] + ReplaceAll(e[1..], APOSTROPHE_ESCAPE, "'");
    assert [e[0]] + (AMPERSAND_ESCAPE[1..] + b) == AMPERSAND_ESCAPE + b;
    var f := AMPERSAND_ESCAPE + b;
    assert f[..6] == AMPERSAND_ESCAPE && f[6..] == b;
  }

  /** The two passes on text that starts with neither escape keep its first
      character: the first pass cannot make an ampersand escape appear there. */
  lemma TwoPassesOtherHead(s: string)
    requires |s| > 0 && !StartsWith(s, APOSTROPHE_ESCAPE) && !StartsWith(s, AMPERSAND_ESCAPE)
    ensures ReplaceAll(ReplaceAll(s, APOSTROPHE_ESCAPE, "'"), AMPERSAND_ESCAPE, "&")
         == [s[0]] + ReplaceAll(ReplaceAll(s[1..], APOSTROPHE_ESCAPE, "'"), AMPERSAND_ESCAPE, "&")
  {
    var a := ReplaceAll(s[1..], APOSTROPHE_ESCAPE, "'");
    ReplaceAllHead(s, APOSTROPHE_ESCAPE, "'");
    var c := ReplaceAll(s, APOSTROPHE_ESCAPE, "'");
    assert c == [s[0]] + a;
    ReplaceAllStartsNoNew(s, APOSTROPHE_ESCAPE, "'", AMPERSAND_ESCAPE);
    ReplaceAllHead(c, AMPERSAND_ESCAPE, "&");
    assert c[1..] == a;
  }

  /** Replacing apostrophe escapes and then ampersand escapes is the single scan
      `Unescape`. */
  lemma {:induction false} TwoPassesUnescape(s: string)
    ensures ReplaceAll(ReplaceAll(s, APOSTROPHE_ESCAPE, "'"), AMPERSAND_ESCAPE, "&") == Unescape(s)
    decreases |s|
  {
    if StartsWith(s, APOSTROPHE_ESCAPE) {
      assert s == APOSTROPHE_ESCAPE + s[6..];
      TwoPassesApostropheHead(s[6..]);
      TwoPassesUnescape(s[6..]);
    } else if StartsWith(s, AMPERSAND_ESCAPE) {
      assert s == AMPERSAND_ESCAPE + s[6..];
      TwoPassesAmpersandHead(s[6..]);
      TwoPassesUnescape(s[6..]);
    } else if s != [] {
      TwoPassesOtherHead(s);
      TwoPassesUnescape(s[1..]);
    }
  }

  /** `beautifyJson`: every apostrophe escape becomes `'`, every ampersand escape
      becomes `&`, and everything else is kept, as the scan `Unescape` says; neither
      escape is left in the result. */
  function BeautifyJson(uglyJson: string): (r: string)
    ensures r == Unescape(uglyJson)
    ensures !Occurs(r, APOSTROPHE_ESCAPE) && !Occurs(r, AMPERSAND_ESCAPE)
  {
    TwoPassesUnescape(uglyJson);
    var apostrophes := ReplaceAll(uglyJson, APOSTROPHE_ESCAPE, "'");
    ReplaceAllLeavesNo(uglyJson, APOSTROPHE_ESCAPE, "'", APOSTROPHE_ESCAPE);
    ReplaceAllLeavesNo(apostrophes, AMPERSAND_ESCAPE, "&", APOSTROPHE_ESCAPE);
    ReplaceAllLeavesNo(apostrophes, AMPERSAND_ESCAPE, "&", AMPERSAND_ESCAPE);
    ReplaceAll(apostrophes, AMPERSAND_ESCAPE, "&")
  }

  /** Text holding neither escape is returned unchanged. */
  lemma BeautifyJsonUnchanged(s: string)
    requires !Occurs(s, APOSTROPHE_ESCAPE) && !Occurs(s, AMPERSAND_ESCAPE)
    ensures BeautifyJson(s) == s
  {
    ReplaceAllAbsent(s, APOSTROPHE_ESCAPE, "'");
    ReplaceAllAbsent(s, AMPERSAND_ESCAPE, "&");
  }

  /** In particular, text without a backslash is returned unchanged. */
  lemma BeautifyJsonNoBackslash(s: string)
    requires '\\' !in s
    ensures BeautifyJson(s) == s
  {
    OccursFirstChar(s, APOSTROPHE_ESCAPE);
    OccursFirstChar(s, AMPERSAND_ESCAPE);
    BeautifyJsonUnchanged(s);
  }

  /** Text without a backslash passes through the scan unchanged. */
  lemma {:induction false} UnescapePlainPrefix(x: string, y: string)
    requires '\\' !in x
    ensures Unescape(x + y) == x + Unescape(y)
    decreases |x|
  {
    if x != [] {
      var s := x + y;
      assert s[0] == x[0];
      assert s[1..] == x[1..] + y;
      UnescapePlainPrefix(x[1..], y);
      assert [x[0]] + x[1..] == x;
    } else {
      assert x + y == y;
    }
  }

  /** An escape whose tail holds no backslash passes through the scan unchanged:
      a backslash followed by text without one, which either does not start with
      `u` or whose first six characters are neither of the two escapes (`\"`, `\n`,
      `\u003c` and so on, but not `\\`). */
  lemma UnescapeKeepsOtherEscape(e: string, y: string)
    requires |e| >= 2 && e[0] == '\\' && '\\' !in e[1..]
    requires e[1] != 'u' || (|e| >= 6 && e[..6] != APOSTROPHE_ESCAPE && e[..6] != AMPERSAND_ESCAPE)
    ensures Unescape(e + y) == e + Unescape(y)
  {
    var s := e + y;
    if e[1] != 'u' {
      assert s[1] != APOSTROPHE_ESCAPE[1] && s[1] != AMPERSAND_ESCAPE[1];
    } else {
      assert s[..6] == e[..6];
    }
    assert s[1..] == e[1..] + y;
    UnescapePlainPrefix(e[1..], y);
    assert [e[0]] + e[1..] == e;
  }

  /** For example, `a\u003cb\u0027` is cleaned to `a\u003cb'`, for any
      backslash-free texts `a` and `b`. */
  lemma BeautifyJsonKeepsOtherEscapes(a: string, b: string)
    requires '\\' !in a && '\\' !in b
    ensures BeautifyJson(a + "\\u003c" + b + APOSTROPHE_ESCAPE) == a + "\\u003c" + b + "'"
  {
    var lt := "\\u003c";
    assert lt[..6] == lt && lt[5] != APOSTROPHE_ESCAPE[5] && lt[5] != AMPERSAND_ESCAPE[5];
    assert lt[1..] == ['u', '0', '0', '3', 'c'];
    assert APOSTROPHE_ESCAPE[6..] == [];
    assert Unescape(APOSTROPHE_ESCAPE) == "'";
    UnescapePlainPrefix(b, APOSTROPHE_ESCAPE);
    UnescapeKeepsOtherEscape(lt, b + APOSTROPHE_ESCAPE);
    UnescapePlainPrefix(a, lt + (b + APOSTROPHE_ESCAPE));
    assert a + lt + b + APOSTROPHE_ESCAPE == a + (lt + (b + APOSTROPHE_ESCAPE));
    assert a + (lt + (b + "'")) == a + lt + b + "'";
  }

  /** A JSON-escaped backslash directly before `u0027` or `u0026` is misread: the
      second backslash starts a match, so the escaped backslash loses its partner and
      the text the serialiser meant as a literal `\u0027` comes out as `\'`, which
      is not a JSON escape. */
  lemma EscapedBackslashMisread(y: string)
    ensures Unescape(['\\'] + APOSTROPHE_ESCAPE + y) == ['\\', '\''] + Unescape(y)
    ensures Unescape(['\\'] + AMPERSAND_ESCAPE + y) == ['\\', '&'] + Unescape(y)
  {
    var a := ['\\'] + APOSTROPHE_ESCAPE + y;
    assert a[1] != APOSTROPHE_ESCAPE[1] && a[1] != AMPERSAND_ESCAPE[1];
    assert a[1..] == APOSTROPHE_ESCAPE + y && a[1..][..6] == APOSTROPHE_ESCAPE && a[1..][6..] == y;
    var b := ['\\'] + AMPERSAND_ESCAPE + y;
    assert b[1] != APOSTROPHE_ESCAPE[1] && b[1] != AMPERSAND_ESCAPE[1];
    assert b[1..] == AMPERSAND_ESCAPE + y && b[1..][..6] == AMPERSAND_ESCAPE && b[1..][6..] == y;
    assert b[1..][..6] != APOSTROPHE_ESCAPE by { assert b[1..][5] != APOSTROPHE_ESCAPE[5]; }
  }

  /** For example, the serialised text `\\u0027` (seven characters, a literal
      `\u0027` in the data) is cleaned to `\'`. */
  lemma BeautifyJsonEscapedBackslashExample()
    ensures BeautifyJson(['\\', '\\', 'u', '0', '0', '2', '7']) == ['\\', '\'']
  {
    assert ['\\', '\\', 'u', '0', '0', '2', '7'] == ['\\'] + APOSTROPHE_ESCAPE + [];
    EscapedBackslashMisread([]);
  }

  /** Cleaning cleaned text changes nothing. */
  lemma BeautifyJsonIdempotent(s: string)
    ensures BeautifyJson(BeautifyJson(s)) == BeautifyJson(s)
  {
    BeautifyJsonUnchanged(BeautifyJson(s));
  }

  /** The serialiser's escaping of apostrophes and ampersands, the text
      `BeautifyJson` is meant to undo. */
  function EscapeApostrophesAndAmpersands(s: string): string
    decreases |s|
  {
    if s == [] then []
    else
      (if s[0] == '\'' then APOSTROPHE_ESCAPE else if s[0] == '&' then AMPERSAND_ESCAPE else [s[0]])
      + EscapeApostrophesAndAmpersands(s[1..])
  }

  /** Only the ampersands escaped: what is left after the first replacement. */
  function EscapeAmpersands(s: string): string
    decreases |s|
  {
    if s == [] then []
    else (if s[0] == '&' then AMPERSAND_ESCAPE else [s[0]]) + EscapeAmpersands(s[1..])
  }

  lemma {:induction false} ApostrophesRestored(s: string)
    requires '\\' !in s
    ensures ReplaceAll(EscapeApostrophesAndAmpersands(s), APOSTROPHE_ESCAPE, "'") == EscapeAmpersands(s)
    decreases |s|
  {
    if s != [] {
      var x := EscapeApostrophesAndAmpersands(s[1..]);
      ApostrophesRestored(s[1..]);
      if s[0] == '\'' {
        var e := APOSTROPHE_ESCAPE + x;
        assert e[..6] == APOSTROPHE_ESCAPE && e[6..] == x;
      } else if s[0] == '&' {
        var e := AMPERSAND_ESCAPE + x;
        assert e[..6] != APOSTROPHE_ESCAPE by { assert e[5] != APOSTROPHE_ESCAPE[5]; }
        assert e[1..] == AMPERSAND_ESCAPE[1..] + x;
        ReplaceAllSkips(AMPERSAND_ESCAPE[1..], x, APOSTROPHE_ESCAPE, "'");
        assert [e[0]] + AMPERSAND_ESCAPE[1..] == AMPERSAND_ESCAPE;
      } else {
        ReplaceAllSkips([s[0]], x, APOSTROPHE_ESCAPE, "'");
      }
    }
  }

  lemma {:induction false} AmpersandsRestored(s: string)
    requires '\\' !in s
    ensures ReplaceAll(EscapeAmpersands(s), AMPERSAND_ESCAPE, "&") == s
    decreases |s|
  {
    if s != [] {
      var x := EscapeAmpersands(s[1..]);
      AmpersandsRestored(s[1..]);
      if s[0] == '&' {
        var e := AMPERSAND_ESCAPE + x;
        assert e[..6] == AMPERSAND_ESCAPE && e[6..] == x;
      } else {
        ReplaceAllSkips([s[0]], x, AMPERSAND_ESCAPE, "&");
      }
      assert [s[0]] + s[1..] == s;
    }
  }

  /** For text without backslashes, escaping apostrophes and ampersands and then
      cleaning gives the text back, so `Don't` reaches the output as `Don't`. */
  lemma BeautifyJsonUndoesEscape(s: string)
    requires '\\' !in s
    ensures BeautifyJson(EscapeApostrophesAndAmpersands(s)) == s
  {
    ApostrophesRestored(s);
    AmpersandsRestored(s);
  }
}
