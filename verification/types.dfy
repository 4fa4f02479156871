/** The record shapes shared by the storefront and its services. */
module Types {
  import opened Wrappers

  /** The markets the storefront serves. */
  datatype Region = US | EU | KR | JP | AU

  /** The product categories of the catalogue. */
  datatype Category = Holiday | Mobility | Cognition | Tech | Home | Wellness | Luxury

  /** The display value of each category, which is what queries and prompts embed. */
  function CategoryName(c: Category): (name: string)
    ensures name != ""
  {
    match c
    case Holiday => "Holiday Gift Guide"
    case Mobility => "Mobility & Access"
    case Cognition => "Brain Health & Memory"
    case Tech => "Assistive Tech"
    case Home => "Home & Living"
    case Wellness => "Wellness & Supplements"
    case Luxury => "Luxury Care"
  }

  /** A catalogue entry as the model returns it; `imageUrl` is optional. */
  datatype Product = Product(
    id: string,
    name: string,
    brand: string,
    description: string,
    price: string,
    currency: string,
    category: string,
    reasoning: string,
    imageUrl: Option<string>)

  /** A purchase link shown for a product. */
  datatype BuyingOption = BuyingOption(title: string, url: string, source: string)
}
