/** The product processor: validation of a remote product, whitelisting
    sanitisation, filter-and-sanitise of a batch, merging variations into a
    product, extraction of its categories and the mapping to a local post. */
module ProductProcessor {
  import opened PhpValues

  /** The optional fields `sanitize_product` copies unchanged when set. */
  const PreserveFields: seq<string> := [
    "slug", "status", "featured", "catalog_visibility", "description",
    "short_description", "price", "regular_price", "sale_price",
    "date_created", "date_modified", "weight", "dimensions",
    "categories", "tags", "images", "attributes", "variations",
    "grouped_products", "menu_order", "meta_data"]

  // ------------------------------------------------------------ validation

  /** `validate_product`: an array whose `id` is set and numeric. */
  predicate ValidateProduct(p: Value): (ok: bool)
    ensures ok ==> p.Obj? && IsSet(p.fields, "id") && (p.fields["id"].Int? || p.fields["id"].Str?)
  {
    IsArray(p) && HasKey(p, "id") && IsNumeric(p.fields["id"])
  }

  /** What `validate_product` accepts and rejects, case by case. */
  lemma ValidateProductCases(p: Value)
    ensures !IsArray(p) ==> !ValidateProduct(p)
    ensures p.List? ==> !ValidateProduct(p)
    ensures p.Obj? && !IsSet(p.fields, "id") ==> !ValidateProduct(p)
    ensures p.Obj? && "id" in p.fields && p.fields["id"].Int? ==> ValidateProduct(p)
    ensures p.Obj? && "id" in p.fields && p.fields["id"].Str?
            && |p.fields["id"].s| > 0 && (forall k :: 0 <= k < |p.fields["id"].s| ==> IsDigit(p.fields["id"].s[k]))
            ==> ValidateProduct(p)
    ensures p.Obj? && "id" in p.fields && (p.fields["id"].Bool? || p.fields["id"].List? || p.fields["id"].Obj?)
            ==> !ValidateProduct(p)
    ensures p.Obj? && "id" in p.fields && p.fields["id"].Str?
            ==> (ValidateProduct(p) <==> IsNumericString(p.fields["id"].s))
  {
    if p.Obj? && "id" in p.fields && p.fields["id"].Str? {
      var s := p.fields["id"].s;
      if |s| > 0 && (forall k :: 0 <= k < |s| ==> IsDigit(s[k])) {
        DigitStringIsNumeric(s);
      }
    }
  }

  /** An empty id is rejected. */
  lemma EmptyIdRejected()
    ensures !ValidateProduct(Obj(map["id" := Str("")]))
  {
    assert LeadingWhitespace("") == 0;
    assert DigitRun("", 0) == 0;
  }

  /** An id of letters is rejected. */
  lemma LetterIdRejected()
    ensures !ValidateProduct(Obj(map["id" := Str("abc")]))
  {
    var abc := "abc";
    assert LeadingWhitespace(abc) == 0 && abc[0..] == abc;
    assert TrailingWhitespace(abc) == 0 && abc[..|abc|] == abc;
    assert DigitRun(abc, 0) == 0;
  }

  /** An id of digits followed by letters is rejected, although `intval`
      reads a number from it: `"12abc"` reads as 12. */
  lemma DigitsThenLettersIdRejected()
    ensures !ValidateProduct(Obj(map["id" := Str("12abc")]))
    ensures IntVal(Str("12abc")) == 12
  {
    var x := "12abc";
    assert LeadingWhitespace(x) == 0 && x[0..] == x;
    assert TrailingWhitespace(x) == 0 && x[..|x|] == x;
    assert DigitRun(x, 2) == 2;
    assert DigitRun(x, 0) == 2;
    assert x[0..2] == "12";
    assert DigitsValue("12") == 12 by {
      assert "12"[..1] == "1";
      assert "1"[..0] == "";
    }
  }

  // ---------------------------------------------------------- sanitisation

  /** The four fields `sanitize_product` always writes. */
  function RequiredFields(p: Doc, wp: WordPress): Doc {
    map[
      "id" := Int(IntVal(Get(p, "id"))),
      "name" := Str(if IsSet(p, "name") then wp.sanitizeTextField(p["name"]) else ""),
      "type" := Str(if IsSet(p, "type") then wp.sanitizeTextField(p["type"]) else "simple"),
      "sku" := Str(if IsSet(p, "sku") then wp.sanitizeTextField(p["sku"]) else "")]
  }

  /** The fields among `fields` that are set in `p`, with their values. */
  function PreservedFields(p: Doc, fields: seq<string>): Doc {
    map k | k in p && k in fields && p[k] != Null :: p[k]
  }

  /** The array `sanitize_product` returns. */
  function Sanitized(p: Doc, wp: WordPress): Doc {
    RequiredFields(p, wp) + PreservedFields(p, PreserveFields)
  }

  /** The keys `sanitize_product` always writes. */
  const RequiredKeys: set<string> := {"id", "name", "type", "sku"}

  /** No required key is on the preserve list. */
  lemma RequiredNotPreserved()
    ensures forall i :: 0 <= i < |PreserveFields| ==> PreserveFields[i] !in RequiredKeys
    ensures "id" !in PreserveFields && "name" !in PreserveFields
    ensures "type" !in PreserveFields && "sku" !in PreserveFields
  {
  }

  /** The four required fields of a sanitised product, with their defaults. */
  lemma SanitizedRequired(p: Doc, wp: WordPress)
    ensures RequiredKeys <= Sanitized(p, wp).Keys
    ensures var s := Sanitized(p, wp);
            && s["id"] == Int(IntVal(Get(p, "id")))
            && s["name"] == (if IsSet(p, "name") then Str(wp.sanitizeTextField(p["name"])) else Str(""))
            && s["type"] == (if IsSet(p, "type") then Str(wp.sanitizeTextField(p["type"])) else Str("simple"))
            && s["sku"] == (if IsSet(p, "sku") then Str(wp.sanitizeTextField(p["sku"])) else Str(""))
  {
    RequiredNotPreserved();
    var pre := PreservedFields(p, PreserveFields);
    assert "id" !in pre && "name" !in pre && "type" !in pre && "sku" !in pre;
  }

  /** A preserve-list key is written exactly when it is set in the input, with
      the input's value. */
  lemma SanitizedPreserved(p: Doc, wp: WordPress, k: string)
    requires k in PreserveFields
    ensures var s := Sanitized(p, wp);
            && (k in s <==> IsSet(p, k))
            && (k in s ==> s[k] == p[k])
  {
    RequiredNotPreserved();
  }

  /** Every key outside the required four is a preserved one. */
  lemma SanitizedOthers(p: Doc, wp: WordPress, k: string)
    requires k in Sanitized(p, wp) && k !in RequiredKeys
    ensures k in PreserveFields && IsSet(p, k) && Sanitized(p, wp)[k] == p[k]
  {
  }

  /** `sanitize_product` always writes `id`, `name`, `type` and `sku`, with the
      defaults `''`, `'simple'` and `''`; every other key it writes is in the
      preserve list and carries the input's value; a preserve-list key is
      written exactly when it is set in the input. */
  lemma SanitizedSpec(p: Doc, wp: WordPress)
    ensures var s := Sanitized(p, wp);
            && s["id"] == Int(IntVal(Get(p, "id")))
            && s["name"] == (if IsSet(p, "name") then Str(wp.sanitizeTextField(p["name"])) else Str(""))
            && s["type"] == (if IsSet(p, "type") then Str(wp.sanitizeTextField(p["type"])) else Str("simple"))
            && s["sku"] == (if IsSet(p, "sku") then Str(wp.sanitizeTextField(p["sku"])) else Str(""))
            && (forall k :: k in s && k !in RequiredKeys ==> k in PreserveFields && IsSet(p, k) && s[k] == p[k])
            && (forall k :: k in PreserveFields ==> (k in s <==> IsSet(p, k)))
  {
    var s := Sanitized(p, wp);
    SanitizedRequired(p, wp);
    forall k | k in s && k !in RequiredKeys ensures k in PreserveFields && IsSet(p, k) && s[k] == p[k] {
      SanitizedOthers(p, wp, k);
    }
    forall k | k in PreserveFields ensures k in s <==> IsSet(p, k) {
      SanitizedPreserved(p, wp, k);
    }
  }

  /** A sanitised product passes validation: its id is an integer. */
  lemma SanitizedIsValid(p: Doc, wp: WordPress)
    ensures ValidateProduct(Obj(Sanitized(p, wp)))
  {
    SanitizedRequired(p, wp);
  }

  /** `sanitize_text_field` leaves its own output, the empty string and
      `'simple'` unchanged. */
  ghost predicate StableSanitizer(wp: WordPress) {
    && (forall v :: wp.sanitizeTextField(Str(wp.sanitizeTextField(v))) == wp.sanitizeTextField(v))
    && wp.sanitizeTextField(Str("")) == ""
    && wp.sanitizeTextField(Str("simple")) == "simple"
  }

  /** With a stable text sanitiser, sanitising a sanitised product changes
      nothing. */
  lemma SanitizeIdempotent(p: Doc, wp: WordPress)
    requires StableSanitizer(wp)
    ensures Sanitized(Sanitized(p, wp), wp) == Sanitized(p, wp)
  {
    RequiredOfSanitized(p, wp);
    PreservedOfSanitized(p, wp);
  }

  /** With a stable text sanitiser, the required fields survive a second pass. */
  lemma RequiredOfSanitized(p: Doc, wp: WordPress)
    requires StableSanitizer(wp)
    ensures RequiredFields(Sanitized(p, wp), wp) == RequiredFields(p, wp)
  {
    SanitizedRequired(p, wp);
    RequiredAgain(p, Sanitized(p, wp), wp);
  }

  /** A document holding the required fields of `p`, with a stable text
      sanitiser, has the same required fields as `p`. */
  lemma RequiredAgain(p: Doc, s: Doc, wp: WordPress)
    requires StableSanitizer(wp)
    requires "id" in s && s["id"] == Int(IntVal(Get(p, "id")))
    requires "name" in s && s["name"] == (if IsSet(p, "name") then Str(wp.sanitizeTextField(p["name"])) else Str(""))
    requires "type" in s && s["type"] == (if IsSet(p, "type") then Str(wp.sanitizeTextField(p["type"])) else Str("simple"))
    requires "sku" in s && s["sku"] == (if IsSet(p, "sku") then Str(wp.sanitizeTextField(p["sku"])) else Str(""))
    ensures RequiredFields(s, wp) == RequiredFields(p, wp)
  {
    var name := if IsSet(p, "name") then wp.sanitizeTextField(p["name"]) else "";
    var ty := if IsSet(p, "type") then wp.sanitizeTextField(p["type"]) else "simple";
    var sku := if IsSet(p, "sku") then wp.sanitizeTextField(p["sku"]) else "";
    assert IsSet(s, "name") && wp.sanitizeTextField(s["name"]) == name;
    assert IsSet(s, "type") && wp.sanitizeTextField(s["type"]) == ty;
    assert IsSet(s, "sku") && wp.sanitizeTextField(s["sku"]) == sku;
  }

  /** The preserved fields survive a second pass. */
  lemma PreservedOfSanitized(p: Doc, wp: WordPress)
    ensures PreservedFields(Sanitized(p, wp), PreserveFields) == PreservedFields(p, PreserveFields)
  {
    var ps, pp := PreservedFields(Sanitized(p, wp), PreserveFields), PreservedFields(p, PreserveFields);
    forall k | k in PreserveFields ensures (k in ps <==> k in pp) && (k in ps ==> ps[k] == pp[k]) {
      SanitizedPreserved(p, wp, k);
    }
    assert ps.Keys == pp.Keys;
  }

  /** One more field of the preserve loop. */
  lemma PreservedStep(p: Doc, fields: seq<string>, i: nat)
    requires i < |fields|
    ensures PreservedFields(p, fields[..i + 1])
         == if IsSet(p, fields[i]) then PreservedFields(p, fields[..i])[fields[i] := p[fields[i]]]
            else PreservedFields(p, fields[..i])
  {
    assert forall k :: k in fields[..i + 1] <==> k in fields[..i] || k == fields[i];
  }

  /** One more field of the preserve loop, on the array being built. */
  lemma SanitizeStep(p: Doc, wp: WordPress, i: nat)
    requires i < |PreserveFields|
    ensures RequiredFields(p, wp) + PreservedFields(p, PreserveFields[..i + 1])
         == if IsSet(p, PreserveFields[i])
            then (RequiredFields(p, wp) + PreservedFields(p, PreserveFields[..i]))[PreserveFields[i] := p[PreserveFields[i]]]
            else RequiredFields(p, wp) + PreservedFields(p, PreserveFields[..i])
  {
    PreservedStep(p, PreserveFields, i);
    RequiredNotPreserved();
    var field, req := PreserveFields[i], RequiredFields(p, wp);
    assert field !in req;
  }

  /** `sanitize_product`. */
  method SanitizeProduct(product: Doc, wp: WordPress) returns (sanitized: Doc)
    ensures sanitized == Sanitized(product, wp)
  {
    sanitized := RequiredFields(product, wp);
    assert PreserveFields[..0] == [];
    for i := 0 to |PreserveFields|
      invariant sanitized == RequiredFields(product, wp) + PreservedFields(product, PreserveFields[..i])
    {
      var field := PreserveFields[i];
      SanitizeStep(product, wp, i);
      if IsSet(product, field) {
        sanitized := sanitized[field := product[field]];
      }
    }
    assert PreserveFields[..|PreserveFields|] == PreserveFields;
  }

  // ------------------------------------------------------------- batches

  /** The array `process_products` returns: the sanitised valid inputs. */
  function Processed(products: seq<Value>, wp: WordPress): seq<Doc>
    decreases |products|
  {
    if products == [] then []
    else
      var last := products[|products| - 1];
      Processed(products[..|products| - 1], wp)
      + (if ValidateProduct(last) then [Sanitized(last.fields, wp)] else [])
  }

  /** Processing two batches one after the other is processing them together:
      the output keeps input order. */
  lemma {:induction false} ProcessedAppend(a: seq<Value>, b: seq<Value>, wp: WordPress)
    ensures Processed(a + b, wp) == Processed(a, wp) + Processed(b, wp)
    decreases |b|
  {
    if b != [] {
      var c := a + b;
      assert c[..|c| - 1] == a + b[..|b| - 1];
      assert c[|c| - 1] == b[|b| - 1];
      ProcessedAppend(a, b[..|b| - 1], wp);
    } else {
      assert a + b == a;
    }
  }

  /** A single input yields its sanitised image when valid, nothing otherwise. */
  lemma ProcessedSingle(x: Value, wp: WordPress)
    ensures Processed([x], wp) == if ValidateProduct(x) then [Sanitized(x.fields, wp)] else []
  {
    assert [x][..0] == [];
  }

  /** Invalid inputs are dropped, so the output is never longer than the input,
      and every output passes validation. */
  lemma {:induction false} ProcessedBound(products: seq<Value>, wp: WordPress)
    ensures |Processed(products, wp)| <= |products|
    ensures forall k :: 0 <= k < |Processed(products, wp)| ==> ValidateProduct(Obj(Processed(products, wp)[k]))
    decreases |products|
  {
    if products != [] {
      var init := products[..|products| - 1];
      ProcessedBound(init, wp);
      var last := products[|products| - 1];
      if ValidateProduct(last) {
        SanitizedIsValid(last.fields, wp);
      }
    }
  }

  /** The outputs as PHP arrays. */
  function AsValues(docs: seq<Doc>): (vs: seq<Value>)
    ensures |vs| == |docs| && forall k :: 0 <= k < |docs| ==> vs[k] == Obj(docs[k])
  {
    seq(|docs|, k requires 0 <= k < |docs| => Obj(docs[k]))
  }

  /** With a stable text sanitiser, processing a processed batch again
      returns it unchanged. */
  lemma {:induction false} ProcessIdempotent(products: seq<Value>, wp: WordPress)
    requires StableSanitizer(wp)
    ensures Processed(AsValues(Processed(products, wp)), wp) == Processed(products, wp)
    decreases |products|
  {
    if products != [] {
      var init := products[..|products| - 1];
      var last := products[|products| - 1];
      ProcessIdempotent(init, wp);
      var head := Processed(init, wp);
      var tail := Processed([last], wp);
      ProcessedAppend(init, [last], wp);
      assert init + [last] == products;
      AsValuesAppend(head, tail);
      ProcessedAppend(AsValues(head), AsValues(tail), wp);
      ProcessedOnceStable(last, wp);
    }
  }

  /** The PHP arrays of two output runs are those of each run. */
  lemma AsValuesAppend(a: seq<Doc>, b: seq<Doc>)
    ensures AsValues(a + b) == AsValues(a) + AsValues(b)
  {
  }

  /** With a stable text sanitiser, one processed input is processed again
      to itself. */
  lemma ProcessedOnceStable(x: Value, wp: WordPress)
    requires StableSanitizer(wp)
    ensures Processed(AsValues(Processed([x], wp)), wp) == Processed([x], wp)
  {
    ProcessedSingle(x, wp);
    if ValidateProduct(x) {
      var s := Sanitized(x.fields, wp);
      assert AsValues([s]) == [Obj(s)];
      SanitizedIsValid(x.fields, wp);
      SanitizeIdempotent(x.fields, wp);
      ProcessedSingle(Obj(s), wp);
    } else {
      assert AsValues([]) == [];
    }
  }

  /** One more element of a batch loop. */
  lemma ProcessedStep(products: seq<Value>, i: nat, wp: WordPress)
    requires i < |products|
    ensures Processed(products[..i + 1], wp)
         == Processed(products[..i], wp)
            + (if ValidateProduct(products[i]) then [Sanitized(products[i].fields, wp)] else [])
  {
    assert products[..i + 1][..i] == products[..i];
  }

  /** `process_products`. The log line for a skipped product is left out. */
  method ProcessProducts(products: seq<Value>, wp: WordPress) returns (processed: seq<Doc>)
    ensures processed == Processed(products, wp)
  {
    processed := [];
    for i := 0 to |products|
      invariant processed == Processed(products[..i], wp)
    {
      var product := products[i];
      ProcessedStep(products, i, wp);
      if ValidateProduct(product) {
        var sanitized := SanitizeProduct(product.fields, wp);
        processed := processed + [sanitized];
      }
    }
    assert products[..|products|] == products;
  }

  // ------------------------------------------------------------ variations

  /** The product `merge_variations` returns. */
  function Merged(product: Doc, variations: Value, wp: WordPress): Doc {
    if !IsArray(variations) then product
    else product["variations" := List(AsValues(Processed(Elements(variations), wp)))]
  }

  /** Non-array variations leave the product as it is; otherwise only its
      `variations` key changes, to the sanitised valid variations in order. */
  lemma MergedSpec(product: Doc, variations: Value, wp: WordPress)
    ensures var m := Merged(product, variations, wp);
            && (!IsArray(variations) ==> m == product)
            && (IsArray(variations) ==>
                 && m.Keys == product.Keys + {"variations"}
                 && (forall k :: k in product && k != "variations" ==> m[k] == product[k])
                 && m["variations"].List?
                 && |m["variations"].items| <= |Elements(variations)|
                 && (forall j :: 0 <= j < |m["variations"].items| ==> ValidateProduct(m["variations"].items[j]))
                 && m["variations"].items == AsValues(Processed(Elements(variations), wp)))
  {
    ProcessedBound(Elements(variations), wp);
  }

  /** With a stable text sanitiser, merging a merged product's own
      `variations` into it again changes nothing: the stored list is already
      validated and sanitised. */
  lemma MergeStoredStable(product: Doc, variations: Value, wp: WordPress)
    requires StableSanitizer(wp) && IsArray(variations)
    ensures var m := Merged(product, variations, wp);
            Merged(m, m["variations"], wp) == m
  {
    var processed := Processed(Elements(variations), wp);
    var stored := List(AsValues(processed));
    assert Elements(stored) == AsValues(processed);
    ProcessIdempotent(Elements(variations), wp);
  }

  /** `merge_variations`. */
  method MergeVariations(product: Doc, variations: Value, wp: WordPress) returns (merged: Doc)
    ensures merged == Merged(product, variations, wp)
  {
    if !IsArray(variations) {
      return product;
    }
    var items := Elements(variations);
    var sanitizedVariations: seq<Value> := [];
    for i := 0 to |items|
      invariant sanitizedVariations == AsValues(Processed(items[..i], wp))
    {
      var variation := items[i];
      ProcessedStep(items, i, wp);
      if ValidateProduct(variation) {
        var sanitized := SanitizeProduct(variation.fields, wp);
        assert AsValues(Processed(items[..i], wp) + [sanitized])
            == AsValues(Processed(items[..i], wp)) + [Obj(sanitized)];
        sanitizedVariations := sanitizedVariations + [Obj(sanitized)];
      }
    }
    assert items[..|items|] == items;
    merged := product["variations" := List(sanitizedVariations)];
  }

  // ------------------------------------------------------------ categories

  /** The categories `extract_categories` iterates: none unless the product's
      `categories` is set and an array. */
  function CategoriesOf(product: Doc): seq<Value> {
    if IsSet(product, "categories") && IsArray(product["categories"]) then Elements(product["categories"])
    else []
  }

  /** A category `extract_categories` keeps: both `id` and `slug` are set. */
  predicate Qualifies(c: Value) {
    HasKey(c, "id") && HasKey(c, "slug")
  }

  /** The qualifying categories, in their order. */
  function Qualifying(categories: seq<Value>): (q: seq<Value>)
    ensures |q| <= |categories|
    ensures forall k :: 0 <= k < |q| ==> Qualifies(q[k])
    decreases |categories|
  {
    if categories == [] then []
    else
      var last := categories[|categories| - 1];
      Qualifying(categories[..|categories| - 1]) + (if Qualifies(last) then [last] else [])
  }

  /** The entry `extract_categories` builds for one category. */
  function CategoryEntry(c: Value, wp: WordPress): Doc
    requires Qualifies(c)
  {
    map[
      "id" := Int(IntVal(c.fields["id"])),
      "slug" := Str(wp.sanitizeTitle(c.fields["slug"])),
      "name" := Str(if HasKey(c, "name") then wp.sanitizeTextField(c.fields["name"]) else "")]
  }

  /** The entries for the categories carrying both `id` and `slug`. */
  function Extracted(categories: seq<Value>, wp: WordPress): seq<Doc>
    decreases |categories|
  {
    if categories == [] then []
    else
      var last := categories[|categories| - 1];
      Extracted(categories[..|categories| - 1], wp)
      + (if Qualifies(last) then [CategoryEntry(last, wp)] else [])
  }

  /** The filter keeps exactly the qualifying categories: all of them when
      every category qualifies, none when none does. */
  lemma {:induction false} QualifyingSpec(categories: seq<Value>, x: Value)
    ensures x in Qualifying(categories) <==> x in categories && Qualifies(x)
    ensures (forall k :: 0 <= k < |categories| ==> Qualifies(categories[k])) ==> Qualifying(categories) == categories
    ensures (forall k :: 0 <= k < |categories| ==> !Qualifies(categories[k])) ==> Qualifying(categories) == []
    decreases |categories|
  {
    if categories != [] {
      var init := categories[..|categories| - 1];
      QualifyingSpec(init, x);
      assert categories == init + [categories[|categories| - 1]];
      assert forall k :: 0 <= k < |init| ==> init[k] == categories[k];
    }
  }

  /** Extraction keeps input order: extracting two lists one after the other
      is extracting them together. */
  lemma {:induction false} ExtractedAppend(a: seq<Value>, b: seq<Value>, wp: WordPress)
    ensures Extracted(a + b, wp) == Extracted(a, wp) + Extracted(b, wp)
    decreases |b|
  {
    if b != [] {
      var c := a + b;
      assert c[..|c| - 1] == a + b[..|b| - 1];
      assert c[|c| - 1] == b[|b| - 1];
      ExtractedAppend(a, b[..|b| - 1], wp);
    } else {
      assert a + b == a;
    }
  }

  /** One entry per qualifying category, in order: its id read by `intval`,
      its slug through `sanitize_title` and its name through
      `sanitize_text_field`, `''` when the name is unset. */
  lemma {:induction false} ExtractedSpec(categories: seq<Value>, wp: WordPress)
    ensures var q := Qualifying(categories);
            var r := Extracted(categories, wp);
            && |r| == |q|
            && (forall k :: 0 <= k < |r| ==>
                 && r[k].Keys == {"id", "slug", "name"}
                 && r[k]["id"] == Int(IntVal(q[k].fields["id"]))
                 && r[k]["slug"] == Str(wp.sanitizeTitle(q[k].fields["slug"]))
                 && r[k]["name"] == Str(if HasKey(q[k], "name") then wp.sanitizeTextField(q[k].fields["name"]) else ""))
    decreases |categories|
  {
    if categories != [] {
      var init := categories[..|categories| - 1];
      ExtractedSpec(init, wp);
    }
  }

  /** A product without an array of categories yields no entries. */
  lemma NoCategories(product: Doc, wp: WordPress)
    requires !IsSet(product, "categories") || !IsArray(product["categories"])
    ensures Extracted(CategoriesOf(product), wp) == []
  {
  }

  /** One more category of the extraction loop. */
  lemma ExtractedStep(categories: seq<Value>, i: nat, wp: WordPress)
    requires i < |categories|
    ensures Extracted(categories[..i + 1], wp)
         == Extracted(categories[..i], wp)
            + (if Qualifies(categories[i]) then [CategoryEntry(categories[i], wp)] else [])
  {
    assert categories[..i + 1][..i] == categories[..i];
  }

  /** `extract_categories`. */
  method ExtractCategories(product: Doc, wp: WordPress) returns (categories: seq<Doc>)
    ensures categories == Extracted(CategoriesOf(product), wp)
  {
    categories := [];
    if IsSet(product, "categories") && IsArray(product["categories"]) {
      var items := Elements(product["categories"]);
      for i := 0 to |items|
        invariant categories == Extracted(items[..i], wp)
      {
        var category := items[i];
        ExtractedStep(items, i, wp);
        if Qualifies(category) {
          categories := categories + [CategoryEntry(category, wp)];
        }
      }
      assert items[..|items|] == items;
    }
  }

  // ---------------------------------------------------------------- import

  /** `$product[$key]` when set, `''` otherwise. */
  function SetOrEmpty(p: Doc, key: string): Value {
    if IsSet(p, key) then p[key] else Str("")
  }

  /** `prepare_for_import`: the local post a remote product maps to. A missing
      `name`, `sku` or `id` reads as null. */
  function PrepareForImport(product: Doc): (post: Doc)
    ensures "post_status" in post && post["post_status"] == Str("publish")
    ensures "post_type" in post && post["post_type"] == Str("product")
    ensures "meta_input" in post && post["meta_input"].Obj?
    ensures "_wootowoo_source_id" in post["meta_input"].fields
            && post["meta_input"].fields["_wootowoo_source_id"] == Get(product, "id")
  {
    map[
      "post_title" := Get(product, "name"),
      "post_content" := SetOrEmpty(product, "description"),
      "post_excerpt" := SetOrEmpty(product, "short_description"),
      "post_status" := Str("publish"),
      "post_type" := Str("product"),
      "meta_input" := Obj(map[
        "_sku" := Get(product, "sku"),
        "_regular_price" := SetOrEmpty(product, "regular_price"),
        "_sale_price" := SetOrEmpty(product, "sale_price"),
        "_weight" := SetOrEmpty(product, "weight"),
        "_wootowoo_source_id" := Get(product, "id")])]
  }

  /** A sanitised product maps to a post whose source id is the integer
      `intval` reads from the remote id, whose title and SKU are strings, and
      whose content, excerpt, prices and weight are the remote values when set. */
  lemma ImportOfSanitized(p: Doc, wp: WordPress)
    ensures var post := PrepareForImport(Sanitized(p, wp));
            && post["meta_input"].fields["_wootowoo_source_id"] == Int(IntVal(Get(p, "id")))
            && post["post_content"] == SetOrEmpty(p, "description")
            && post["post_excerpt"] == SetOrEmpty(p, "short_description")
            && post["meta_input"].fields["_regular_price"] == SetOrEmpty(p, "regular_price")
            && post["meta_input"].fields["_sale_price"] == SetOrEmpty(p, "sale_price")
            && post["meta_input"].fields["_weight"] == SetOrEmpty(p, "weight")
            && Get(Sanitized(p, wp), "name").Str? && Get(Sanitized(p, wp), "sku").Str?
  {
    SanitizedRequired(p, wp);
    var s := Sanitized(p, wp);
    ImportCopies(s);
    PreservedCopy(p, wp, s, "description");
    PreservedCopy(p, wp, s, "short_description");
    PreservedCopy(p, wp, s, "regular_price");
    PreservedCopy(p, wp, s, "sale_price");
    PreservedCopy(p, wp, s, "weight");
  }

  /** The post's content, excerpt, prices and weight are the product's
      values when set and `''` otherwise. */
  lemma ImportCopies(product: Doc)
    ensures var post := PrepareForImport(product);
            && post["post_content"] == SetOrEmpty(product, "description")
            && post["post_excerpt"] == SetOrEmpty(product, "short_description")
            && post["meta_input"].fields["_regular_price"] == SetOrEmpty(product, "regular_price")
            && post["meta_input"].fields["_sale_price"] == SetOrEmpty(product, "sale_price")
            && post["meta_input"].fields["_weight"] == SetOrEmpty(product, "weight")
  {
  }

  /** A preserve-list field reads the same from the sanitised product as
      from the remote one. */
  lemma PreservedCopy(p: Doc, wp: WordPress, s: Doc, field: string)
    requires s == Sanitized(p, wp) && field in PreserveFields
    ensures SetOrEmpty(s, field) == SetOrEmpty(p, field)
  {
    SanitizedPreserved(p, wp, field);
  }
}
