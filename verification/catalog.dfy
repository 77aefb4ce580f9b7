/**
 * The source products and variants as the sync routine reads them, the SKU each variant
 * is synchronised under, and the part record built for it.
 */
module Catalog {
  import opened Wrappers
  import Text

  /** A variant: its numeric id and its SKU, which may be missing (null). */
  datatype Variant = Variant(id: nat, sku: Option<string>)

  /** A product: id, title, optional HTML body and its variants. A product whose
      `variants` is not an array has `variants == None`. */
  datatype Product = Product(id: nat, title: string, bodyHtml: Option<string>,
                             variants: Option<seq<Variant>>)

  /** The record posted to the target's part-creation endpoint. */
  datatype Part = Part(partNumber: string, name: string, description: string,
                       active: bool, saleable: bool)

  /** `variant.sku || "SKU-" + variant.id`: the fallback replaces a missing or empty SKU
      only; a whitespace-only SKU is kept. */
  function RawSku(v: Variant): (raw: string)
    ensures raw != []
    ensures v.sku.Some? && v.sku.value != [] ==> raw == v.sku.value
  {
    if v.sku.Some? && v.sku.value != [] then v.sku.value else "SKU-" + Text.Decimal(v.id)
  }

  /** `String(rawSku).trim()`: the SKU a variant is synchronised under; empty means the
      variant is skipped. */
  function VariantSku(v: Variant): (sku: string)
    ensures Text.Trim(sku) == sku
  {
    Text.TrimIdempotent(RawSku(v));
    Text.Trim(RawSku(v))
  }

  /** "SKU-" followed by the decimal id, which has no surrounding whitespace. */
  lemma FallbackTrimsToItself(id: nat)
    ensures Text.Trim("SKU-" + Text.Decimal(id)) == "SKU-" + Text.Decimal(id)
  {
    var t := "SKU-" + Text.Decimal(id);
    Text.TrimOfPadded([], t, []);
    assert [] + t + [] == t;
  }

  /** A variant is skipped exactly when it has a non-empty SKU made of whitespace only:
      a missing or empty SKU is replaced by the (non-blank) fallback first. */
  lemma SkippedIffWhitespaceOnlySku(v: Variant)
    ensures VariantSku(v) == [] <==> v.sku.Some? && v.sku.value != [] && Text.AllWhitespace(v.sku.value)
  {
    if !(v.sku.Some? && v.sku.value != []) {
      FallbackTrimsToItself(v.id);
    }
  }

  /** A missing or empty SKU becomes `SKU-<id>`. */
  lemma FalsySkuFallsBackToId(v: Variant)
    requires v.sku.None? || v.sku == Some([])
    ensures VariantSku(v) == "SKU-" + Text.Decimal(v.id)
  {
    FallbackTrimsToItself(v.id);
  }

  /** A variant with `sku: ""` and `id: 99` is synchronised as "SKU-99". */
  lemma EmptySkuExample()
    ensures VariantSku(Variant(99, Some(""))) == "SKU-99"
  {
    FalsySkuFallsBackToId(Variant(99, Some("")));
    assert Text.Decimal(99) == "99";
  }

  /** A variant with a plain SKU is synchronised under that SKU. */
  lemma PlainSkuExample()
    ensures VariantSku(Variant(10, Some("BP-100"))) == "BP-100"
  {
    Text.TrimOfPadded([], "BP-100", []);
    assert [] + "BP-100" + [] == "BP-100";
  }

  lemma UpperOfFallback(id: nat)
    ensures Text.Upper("SKU-" + Text.Decimal(id)) == "SKU-" + Text.Decimal(id)
  {
    Text.UpperOfNoLower("SKU-" + Text.Decimal(id));
  }

  /** Two variants that both fall back to their ids never share a key unless the ids agree. */
  lemma FallbackKeysDistinct(v: Variant, w: Variant)
    requires v.sku.None? || v.sku == Some([])
    requires w.sku.None? || w.sku == Some([])
    requires v.id != w.id
    ensures Text.Upper(VariantSku(v)) != Text.Upper(VariantSku(w))
  {
    FalsySkuFallsBackToId(v);
    FalsySkuFallsBackToId(w);
    UpperOfFallback(v.id);
    UpperOfFallback(w.id);
    var dv, dw := Text.Decimal(v.id), Text.Decimal(w.id);
    if dv == dw {
      Text.DecimalRoundTrip(v.id);
      Text.DecimalRoundTrip(w.id);
    } else {
      assert ("SKU-" + dv)[4..] == dv && ("SKU-" + dw)[4..] == dw;
    }
  }

  /** The part built for a product and a synchronised SKU (`body_html || ""`). */
  function NewPart(p: Product, sku: string): (part: Part)
    ensures part.partNumber == sku && part.name == p.title
    ensures part.active && part.saleable
    ensures p.bodyHtml.None? ==> part.description == []
    ensures p.bodyHtml.Some? ==> part.description == p.bodyHtml.value
  {
    Part(sku, p.title, p.bodyHtml.GetOr(""), true, true)
  }
}
