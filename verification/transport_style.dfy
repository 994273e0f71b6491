/**
  How a transport type is presented: the three lookup tables of the route
  timeline (icon, badge class, icon class) and the badge ternary the route
  detail panel repeats. Every table is total; any type outside the four
  known ones, including an absent one, falls back to a neutral entry.

  A `className` is a space-separated list of CSS classes; it is modelled
  as the sequence of its class tokens, in the order the components write them.
*/
module TransportStyle {
  import opened Wrappers

  /** The class tokens of one `className` string, in order. */
  type ClassList = seq<string>

  /** The colour family a badge is drawn in. */
  datatype Family = Blue | Green | Yellow | Purple | Gray

  predicate IsKnown(transportType: string) {
    transportType in ["FLIGHT", "BUS", "UBER", "SUBWAY"]
  }

  /** The colour family of each known type; gray for everything else. */
  function FamilyOf(transportType: string): (f: Family)
    ensures f == Gray <==> !IsKnown(transportType)
  {
    match transportType
    case "FLIGHT" => Blue
    case "BUS" => Green
    case "UBER" => Yellow
    case "SUBWAY" => Purple
    case _ => Gray
  }

  /** The background half of a family's badge classes. */
  function BackgroundClasses(f: Family): ClassList {
    match f
    case Blue => ["bg-blue-100", "dark:bg-blue-900/30"]
    case Green => ["bg-green-100", "dark:bg-green-900/30"]
    case Yellow => ["bg-yellow-100", "dark:bg-yellow-900/30"]
    case Purple => ["bg-purple-100", "dark:bg-purple-900/30"]
    case Gray => ["bg-gray-100", "dark:bg-gray-900/30"]
  }

  /** The text-colour half of a family's badge classes. */
  function TextClasses(f: Family): ClassList {
    match f
    case Blue => ["text-blue-600", "dark:text-blue-400"]
    case Green => ["text-green-600", "dark:text-green-400"]
    case Yellow => ["text-yellow-600", "dark:text-yellow-400"]
    case Purple => ["text-purple-600", "dark:text-purple-400"]
    case Gray => ["text-gray-600", "dark:text-gray-400"]
  }

  /** A family's full badge classes: its background, then its text colour. */
  function FamilyBadge(f: Family): ClassList {
    BackgroundClasses(f) + TextClasses(f)
  }

  /** `getTransportationIcon`: a Material Symbols icon name for the type. */
  function Icon(transportType: string): (icon: string)
    ensures icon == "directions" <==> !IsKnown(transportType)
  {
    match transportType
    case "FLIGHT" => "flight"
    case "BUS" => "directions_bus"
    case "UBER" => "local_taxi"
    case "SUBWAY" => "train"
    case _ => "directions"
  }

  /** `getTransportBadgeClass`: the badge is drawn in the type's colour family. */
  function BadgeClass(transportType: string): (cls: ClassList)
    ensures cls == FamilyBadge(FamilyOf(transportType))
  {
    match transportType
    case "FLIGHT" => ["bg-blue-100", "dark:bg-blue-900/30", "text-blue-600", "dark:text-blue-400"]
    case "BUS" => ["bg-green-100", "dark:bg-green-900/30", "text-green-600", "dark:text-green-400"]
    case "UBER" => ["bg-yellow-100", "dark:bg-yellow-900/30", "text-yellow-600", "dark:text-yellow-400"]
    case "SUBWAY" => ["bg-purple-100", "dark:bg-purple-900/30", "text-purple-600", "dark:text-purple-400"]
    case _ => ["bg-gray-100", "dark:bg-gray-900/30", "text-gray-600", "dark:text-gray-400"]
  }

  /** `getTransportIconClass`: the icon takes the text colour of the same family. */
  function IconClass(transportType: string): (cls: ClassList)
    ensures cls == TextClasses(FamilyOf(transportType))
  {
    match transportType
    case "FLIGHT" => ["text-blue-600", "dark:text-blue-400"]
    case "BUS" => ["text-green-600", "dark:text-green-400"]
    case "UBER" => ["text-yellow-600", "dark:text-yellow-400"]
    case "SUBWAY" => ["text-purple-600", "dark:text-purple-400"]
    case _ => ["text-gray-600", "dark:text-gray-400"]
  }

  /** The badge ternary the route detail panel writes out, twice and identically. */
  function PanelBadgeClass(transportType: string): (cls: ClassList)
    ensures cls == FamilyBadge(FamilyOf(transportType))
  {
    if transportType == "FLIGHT" then ["bg-blue-100", "dark:bg-blue-900/30", "text-blue-600", "dark:text-blue-400"]
    else if transportType == "BUS" then ["bg-green-100", "dark:bg-green-900/30", "text-green-600", "dark:text-green-400"]
    else if transportType == "UBER" then ["bg-yellow-100", "dark:bg-yellow-900/30", "text-yellow-600", "dark:text-yellow-400"]
    else if transportType == "SUBWAY" then ["bg-purple-100", "dark:bg-purple-900/30", "text-purple-600", "dark:text-purple-400"]
    else ["bg-gray-100", "dark:bg-gray-900/30", "text-gray-600", "dark:text-gray-400"]
  }

  /**
    The timeline indexes its transports past their end when given too few;
    JavaScript's `undefined` then reaches each `switch` and takes its default.
  */
  function IconOf(transport: Option<string>): (icon: string)
    ensures transport.None? ==> icon == "directions"
    ensures transport.Some? ==> icon == Icon(transport.value)
  {
    match transport
    case Some(t) => Icon(t)
    case None => "directions"
  }

  function BadgeClassOf(transport: Option<string>): (cls: ClassList)
    ensures transport.None? ==> cls == FamilyBadge(Gray)
    ensures transport.Some? ==> cls == FamilyBadge(FamilyOf(transport.value))
  {
    match transport
    case Some(t) => BadgeClass(t)
    case None => ["bg-gray-100", "dark:bg-gray-900/30", "text-gray-600", "dark:text-gray-400"]
  }

  function IconClassOf(transport: Option<string>): (cls: ClassList)
    ensures transport.None? ==> cls == TextClasses(Gray)
    ensures transport.Some? ==> cls == TextClasses(FamilyOf(transport.value))
  {
    match transport
    case Some(t) => IconClass(t)
    case None => ["text-gray-600", "dark:text-gray-400"]
  }

  /** The icon of a badge takes the colour of the badge's own text. */
  lemma IconMatchesBadgeText(transport: Option<string>)
    ensures BadgeClassOf(transport)[2..] == IconClassOf(transport)
  {
  }

  /** The four known types get four different icons and four different colour families. */
  lemma KnownTypesAreDistinguished(t: string, u: string)
    requires IsKnown(t) && IsKnown(u) && t != u
    ensures Icon(t) != Icon(u)
    ensures FamilyOf(t) != FamilyOf(u)
    ensures IconClass(t) != IconClass(u)
  {
  }

  /** Every unknown type looks the same: gray, with the generic icon. */
  lemma UnknownTypesFallBack(t: string)
    requires !IsKnown(t)
    ensures Icon(t) == "directions"
    ensures BadgeClass(t) == ["bg-gray-100", "dark:bg-gray-900/30", "text-gray-600", "dark:text-gray-400"]
    ensures IconClass(t) == ["text-gray-600", "dark:text-gray-400"]
  {
  }

  /** The summary badges and the per-step badges of the panel use the timeline's table. */
  lemma PanelAndTimelineBadgesAgree(t: string)
    ensures PanelBadgeClass(t) == BadgeClass(t)
  {
  }
}
