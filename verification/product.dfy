/** The extracted record: a mutable object with five fields, filled one setter at a
    time. Fields that were never set hold Java's defaults, `0` for the numbers and
    `null` (here `None`) for the name, the brand and the colour list. */
module Products {
  import opened Lang

  /** The record's five fields as one value. */
  datatype ProductView = ProductView(
    id: int32,
    name: Option<string>,
    brand: Option<string>,
    price: int32,
    color: Option<seq<string>>)

  /** What a freshly constructed product holds. */
  const Unset: ProductView := ProductView(0, None, None, 0, None)

  /** `String.valueOf` of a possibly-null string, as string concatenation renders it. */
  function NullableText(s: Option<string>): string {
    match s
    case None => "null"
    case Some(t) => t
  }

  /** `List.toString` of a possibly-null list of strings: `[a, b, c]`. */
  function ListText(l: Option<seq<string>>): string {
    match l
    case None => "null"
    case Some(items) => "[" + Join(items, ", ") + "]"
  }

  class Product {
    var id: int32
    var name: Option<string>
    var brand: Option<string>
    var price: int32
    var color: Option<seq<string>>

    constructor ()
      ensures View() == Unset
    {
      id, name, brand, price, color := 0, None, None, 0, None;
    }

    function View(): ProductView
      reads this
    {
      ProductView(id, name, brand, price, color)
    }

    function GetId(): int32
      reads this
    {
      id
    }

    method SetId(id: int32)
      modifies this
      ensures GetId() == id
      ensures name == old(name) && brand == old(brand) && price == old(price) && color == old(color)
    {
      this.id := id;
    }

    function GetName(): Option<string>
      reads this
    {
      name
    }

    method SetName(name: Option<string>)
      modifies this
      ensures GetName() == name
      ensures id == old(id) && brand == old(brand) && price == old(price) && color == old(color)
    {
      this.name := name;
    }

    function GetBrand(): Option<string>
      reads this
    {
      brand
    }

    method SetBrand(brand: Option<string>)
      modifies this
      ensures GetBrand() == brand
      ensures id == old(id) && name == old(name) && price == old(price) && color == old(color)
    {
      this.brand := brand;
    }

    function GetPrice(): int32
      reads this
    {
      price
    }

    function GetColor(): Option<seq<string>>
      reads this
    {
      color
    }

    method SetColor(color: Option<seq<string>>)
      modifies this
      ensures GetColor() == color
      ensures id == old(id) && name == old(name) && brand == old(brand) && price == old(price)
    {
      this.color := color;
    }

    method SetPrice(price: int32)
      modifies this
      ensures GetPrice() == price
      ensures id == old(id) && name == old(name) && brand == old(brand) && color == old(color)
    {
      this.price := price;
    }

    /** `toString`: name, brand, colour, price and id, in that order; the id is the
        decimal just before the closing brace and reads back as the id. */
    function ToString(): (r: string)
      reads this
      ensures r == "Product{ name='" + NullableText(name) + "', brand='" + NullableText(brand)
                   + "', color='" + ListText(color) + "', price=" + IntToDecimal(price as int)
                   + ", id=" + IntToDecimal(id as int) + "}"
      ensures var d := IntToDecimal(id as int);
        && |d| + 6 <= |r|
        && r[|r| - 1 - |d| - 5 .. |r| - 1 - |d|] == ", id="
        && DecimalValue(r[|r| - 1 - |d| .. |r| - 1]) == id as int
    {
      var d := IntToDecimal(id as int);
      IntToDecimalRoundTrip(id as int);
      var head := "Product{ name='" + NullableText(name) + "', brand='" + NullableText(brand)
                  + "', color='" + ListText(color) + "', price=" + IntToDecimal(price as int);
      var r := head + ", id=" + d + "}";
      assert r[|r| - 1 - |d| .. |r| - 1] == d;
      assert r[|r| - 1 - |d| - 5 .. |r| - 1 - |d|] == ", id=";
      r
    }
  }
}
