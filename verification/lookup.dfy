/**
 * The part lookup by SKU against the target system's data-list endpoint. The two HTTP
 * queries (an "equals" query and, when it finds nothing, a "contains" query) are replaced
 * by their replies, given as inputs; what remains is the choice of the items array in a
 * reply, the first-hit rule, the identifier match of the fallback, and the rule that a
 * failed query yields "not found".
 */
module PartLookup {
  import opened Wrappers
  import opened Json
  import Text

  /** The outcome of one list query: a response body, or an error thrown by the HTTP
      client (transport failure or a non-2xx status). */
  datatype Reply = Replied(body: Value) | Failed

  /** The fields that may hold the items array, in the order they are tried. */
  const ItemFields: seq<string> := ["Items", "items", "Data"]

  /** The fields that may hold an item's identifier, in the order `??` tries them. */
  const IdentifierFields: seq<string> := ["PartNumber", "SKU", "Sku", "sku"]

  /** The items of a reply body: `data.Items`, `data.items` or `data.Data`, whichever is
      first an array, else `data` itself when it is an array, else nothing. */
  function SelectItems(data: Value): (r: seq<Value>)
    ensures forall i :: 0 <= i < |ItemFields| && IsArray(Get(data, ItemFields[i]))
                        && (forall j :: 0 <= j < i ==> !IsArray(Get(data, ItemFields[j])))
                        ==> r == Get(data, ItemFields[i]).value.elems
    ensures (forall i :: 0 <= i < |ItemFields| ==> !IsArray(Get(data, ItemFields[i])))
            ==> r == (if data.Arr? then data.elems else [])
  {
    assert |ItemFields| == 3 && ItemFields[0] == "Items" && ItemFields[1] == "items" && ItemFields[2] == "Data";
    if IsArray(Get(data, "Items")) then Get(data, "Items").value.elems
    else if IsArray(Get(data, "items")) then Get(data, "items").value.elems
    else if IsArray(Get(data, "Data")) then Get(data, "Data").value.elems
    else if data.Arr? then data.elems
    else []
  }

  /** An empty `Items` array is chosen even when `items` holds parts: the selector takes
      the first array, not the first non-empty one. */
  lemma EmptyItemsArrayShadowsOthers(part: Value)
    ensures SelectItems(Obj(map["Items" := Arr([]), "items" := Arr([part])])) == []
  {
    var data := Obj(map["Items" := Arr([]), "items" := Arr([part])]);
    assert Get(data, "Items") == Some(Arr([]));
  }

  /** The result of the "equals" query: `items[0]` when it is truthy; an empty array or a
      falsy first item is no hit. */
  function EqualsHit(items: seq<Value>): (r: Option<Value>)
    ensures r.Some? ==> items != [] && r.value == items[0] && Truthy(r.value)
    ensures r.None? <==> items == [] || !Truthy(items[0])
  {
    if |items| > 0 && Truthy(items[0]) then Some(items[0]) else None
  }

  /** `a ?? b ?? … ?? ""` over the properties `keys` of `it`. */
  function Coalesce(it: Value, keys: seq<string>): (r: Value)
    ensures r != Null
    ensures (forall j :: 0 <= j < |keys| ==> Nullish(Get(it, keys[j]))) ==> r == Str("")
    ensures forall i :: 0 <= i < |keys| && !Nullish(Get(it, keys[i]))
                        && (forall j :: 0 <= j < i ==> Nullish(Get(it, keys[j])))
                        ==> r == Get(it, keys[i]).value
  {
    if keys == [] then Str("")
    else if !Nullish(Get(it, keys[0])) then Get(it, keys[0]).value
    else
      var r := Coalesce(it, keys[1..]);
      assert forall i :: 1 <= i < |keys| ==> keys[1..][i - 1] == keys[i];
      r
  }

  /** The identifier the fallback compares: `PartNumber ?? SKU ?? Sku ?? sku ?? ""`. */
  function Identifier(it: Value): (r: Value)
    ensures r != Null
    ensures !it.Obj? ==> r == Str("")
    ensures it.Obj? && "PartNumber" in it.fields && it.fields["PartNumber"] != Null
            ==> r == it.fields["PartNumber"]
  {
    var r := Coalesce(it, IdentifierFields);
    assert !it.Obj? ==> forall j :: 0 <= j < |IdentifierFields| ==> Nullish(Get(it, IdentifierFields[j]));
    assert IdentifierFields[0] == "PartNumber";
    r
  }

  /** An empty-string PartNumber is not nullish, so it is the identifier. */
  lemma EmptyPartNumberIsUsed(sku: Value)
    ensures Identifier(Obj(map["PartNumber" := Str(""), "SKU" := sku])) == Str("")
  {
    var it := Obj(map["PartNumber" := Str(""), "SKU" := sku]);
    assert !Nullish(Get(it, IdentifierFields[0]));
  }

  /** A null PartNumber is nullish, so the identifier falls through to SKU. */
  lemma NullPartNumberFallsThrough(sku: string)
    ensures Identifier(Obj(map["PartNumber" := Null, "SKU" := Str(sku)])) == Str(sku)
  {
    var it := Obj(map["PartNumber" := Null, "SKU" := Str(sku)]);
    assert Nullish(Get(it, IdentifierFields[0]));
    assert !Nullish(Get(it, IdentifierFields[1]));
  }

  /** `sku` is the last field tried: it is the identifier when the other three are absent. */
  lemma LowerCaseSkuIsLastResort(v: Value)
    requires v != Null
    ensures Identifier(Obj(map["sku" := v])) == v
  {
    var it := Obj(map["sku" := v]);
    assert forall j :: 0 <= j < 3 ==> Nullish(Get(it, IdentifierFields[j]));
    assert Get(it, IdentifierFields[3]) == Some(v);
  }

  /** The predicate given to `find`: the item's identifier and the query SKU agree once
      both are trimmed and upper-cased. A falsy item (null, false, 0, "") has the identifier
      "", so it never matches a non-blank SKU. */
  function Matches(it: Value, sku: string): (b: bool)
    ensures !Truthy(it) && Text.Key(sku) != [] ==> !b
  {
    Text.Key(JsString(Identifier(it))) == Text.Key(sku)
  }

  /** `items.find(p)`, as the index of the item found: the first item satisfying `p`. */
  function FindFirst(items: seq<Value>, p: Value -> bool): (r: Option<nat>)
    ensures r.Some? ==> r.value < |items| && p(items[r.value])
    ensures r.Some? ==> forall j :: 0 <= j < r.value ==> !p(items[j])
    ensures r.None? <==> forall j :: 0 <= j < |items| ==> !p(items[j])
  {
    if items == [] then None
    else if p(items[0]) then Some(0)
    else
      var rest := FindFirst(items[1..], p);
      assert forall j :: 1 <= j < |items| ==> items[1..][j - 1] == items[j];
      if rest.None? then None else Some(rest.value + 1)
  }

  /** The result of the "contains" query: the first matching item, provided it is truthy. */
  function ContainsHit(items: seq<Value>, sku: string): (r: Option<Value>)
    ensures r.Some? ==> Truthy(r.value)
    ensures r.Some? ==> exists i :: 0 <= i < |items| && items[i] == r.value && Matches(items[i], sku)
                                    && forall j :: 0 <= j < i ==> !Matches(items[j], sku)
  {
    match FindFirst(items, it => Matches(it, sku))
    case None => None
    case Some(i) => if Truthy(items[i]) then Some(items[i]) else None
  }

  /** The "contains" query yields nothing exactly when no item matches or the first item
      that matches is falsy. */
  lemma ContainsHitMisses(items: seq<Value>, sku: string)
    ensures ContainsHit(items, sku).None? <==>
      (forall i :: 0 <= i < |items| ==> !Matches(items[i], sku))
      || (exists i :: 0 <= i < |items| && Matches(items[i], sku) && !Truthy(items[i])
                      && forall j :: 0 <= j < i ==> !Matches(items[j], sku))
  {
    var f := FindFirst(items, it => Matches(it, sku));
    if f.Some? {
      var i := f.value;
      assert Matches(items[i], sku) && forall j :: 0 <= j < i ==> !Matches(items[j], sku);
      forall k | 0 <= k < |items| && Matches(items[k], sku) && forall j :: 0 <= j < k ==> !Matches(items[j], sku)
        ensures k == i
      {
      }
    } else {
      assert forall j :: 0 <= j < |items| ==> !Matches(items[j], sku);
    }
  }

  /** For a non-blank SKU the "contains" query finds a part exactly when some item matches:
      falsy items never match. */
  lemma ContainsHitNonBlank(items: seq<Value>, sku: string)
    ensures Text.Key(sku) != [] ==>
      (ContainsHit(items, sku).Some? <==> exists i :: 0 <= i < |items| && Matches(items[i], sku))
  {
    ContainsHitMisses(items, sku);
  }

  /** `if (!viewId)`: the list view is configured when its id is present and non-empty. */
  predicate ViewConfigured(viewId: Option<string>) {
    viewId.Some? && viewId.value != []
  }

  /** `getPartBySku(sku, token)`, given the list-view setting and the replies the
      "equals" and "contains" queries would receive. */
  function GetPartBySku(viewId: Option<string>, sku: string, equalsReply: Reply, containsReply: Reply)
    : (r: Option<Value>)
    ensures !ViewConfigured(viewId) ==> r.None?
    ensures equalsReply.Failed? ==> r.None?
    ensures r.Some? ==> Truthy(r.value)
    ensures ViewConfigured(viewId) && equalsReply.Replied? && EqualsHit(SelectItems(equalsReply.body)).Some?
            ==> r == Some(SelectItems(equalsReply.body)[0])
    ensures r.Some? && equalsReply.Replied? && EqualsHit(SelectItems(equalsReply.body)).None?
            ==> containsReply.Replied? &&
                var items2 := SelectItems(containsReply.body);
                exists i :: 0 <= i < |items2| && items2[i] == r.value && Matches(items2[i], sku)
                            && forall j :: 0 <= j < i ==> !Matches(items2[j], sku)
    ensures ViewConfigured(viewId) && equalsReply.Replied? && EqualsHit(SelectItems(equalsReply.body)).None?
            && containsReply.Replied? && Text.Key(sku) != []
            ==> var items2 := SelectItems(containsReply.body);
                (r.Some? <==> exists j :: 0 <= j < |items2| && Matches(items2[j], sku))
  {
    if !ViewConfigured(viewId) then None
    else
      match equalsReply
      case Failed => None
      case Replied(data) =>
        var hit := EqualsHit(SelectItems(data));
        if hit.Some? then hit
        else
          match containsReply
          case Failed => None
          case Replied(data2) =>
            ContainsHitNonBlank(SelectItems(data2), sku);
            ContainsHit(SelectItems(data2), sku)
  }

  /** An item whose PartNumber is a string matches exactly when that string and the
      query SKU have the same key. */
  lemma MatchesByPartNumber(id: string, sku: string)
    ensures Matches(Obj(map["PartNumber" := Str(id)]), sku) <==> Text.Key(id) == Text.Key(sku)
  {
    var it := Obj(map["PartNumber" := Str(id)]);
    assert Get(it, IdentifierFields[0]) == Some(Str(id));
  }

  /** The fallback is insensitive to case and surrounding whitespace on both sides: a part
      numbered `" BP-100 "` is found for the SKU `"bp-100"`. */
  lemma FallbackIgnoresCase(pre: string, id: string, post: string,
                            pre2: string, id2: string, post2: string)
    requires Text.AllWhitespace(pre) && Text.AllWhitespace(post)
    requires Text.AllWhitespace(pre2) && Text.AllWhitespace(post2)
    requires id != [] && !Text.IsJsWhitespace(id[0]) && !Text.IsJsWhitespace(id[|id| - 1])
    requires id2 != [] && !Text.IsJsWhitespace(id2[0]) && !Text.IsJsWhitespace(id2[|id2| - 1])
    requires Text.Upper(id) == Text.Upper(id2)
    ensures Matches(Obj(map["PartNumber" := Str(pre + id + post)]), pre2 + id2 + post2)
  {
    MatchesByPartNumber(pre + id + post, pre2 + id2 + post2);
    Text.KeyOfPadded(pre, id, post);
    Text.KeyOfPadded(pre2, id2, post2);
  }
}
