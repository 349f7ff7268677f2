/** The canned product-description and dashboard-insight texts the dashboard shows. */
module DescriptionService {
  import Text

  datatype Description = Description(description: string, ingredients: seq<string>)

  /** The static descriptions, keyed by lower-case product name. */
  const Table: map<string, Description> := map[
    "croissant" := Description(
      "Buttery, flaky pastry with a delicate, golden exterior.",
      ["Flour", "Butter", "Yeast", "Milk", "Salt"]),
    "sourdough" := Description(
      "Tangy, crusty artisan bread with a soft, chewy interior.",
      ["Flour", "Water", "Salt", "Sourdough Starter", "Time"]),
    "chocolate-cake" := Description(
      "Rich, decadent chocolate cake with layers of pure indulgence.",
      ["Flour", "Cocoa", "Sugar", "Eggs", "Butter"])]

  const Default := Description("A delicious treat made with love from our bakery.", ["Flour", "Sugar", "Love"])

  /** `generateProductDescription`: the table entry for the lower-cased name, or the default. */
  function Describe(productName: string, category: string): (d: Description)
    ensures Text.Lower(productName) in Table ==> d == Table[Text.Lower(productName)]
    ensures Text.Lower(productName) !in Table ==> d == Default
  {
    var key := Text.Lower(productName);
    if key in Table then Table[key] else Default
  }

  /** Lower-casing twice is lower-casing once. */
  lemma {:induction false} LowerIdempotent(s: string)
    ensures Text.Lower(Text.Lower(s)) == Text.Lower(s)
  {
    if s != [] {
      LowerIdempotent(s[1..]);
      assert Text.Lower(s)[1..] == Text.Lower(s[1..]);
    }
  }

  /** The answer depends on neither the category nor the case of the name. */
  lemma DescribeIgnoresCategoryAndCase(productName: string, category: string, other: string)
    ensures Describe(productName, category) == Describe(Text.Lower(productName), other)
  {
    LowerIdempotent(productName);
  }

  /** The table's keys are lower-case, so each listed name finds its own entry. */
  lemma ListedKeys(name: string, category: string)
    requires name in Table
    ensures Describe(name, category) == Table[name]
  {
    assert name == "croissant" || name == "sourdough" || name == "chocolate-cake";
    assert forall c :: c in name ==> 'a' <= c <= 'z' || c == '-';
    Text.LowerKeepsLower(name);
  }

  /** A name outside the table, in any case, gets the default. */
  lemma UnlistedGetsDefault(productName: string, category: string)
    requires Text.Lower(productName) !in Table
    ensures Describe(productName, category) == Default
  {
  }

  /** `generateDashboardInsights`: the same sentence whatever the sales and pending count. */
  function Insights(salesTotals: seq<int>, pendingOrdersCount: int): string
  {
    "Keep up the great work! Sales are looking steady."
  }

  /** The insight does not depend on its inputs. */
  lemma InsightsConstant(s1: seq<int>, p1: int, s2: seq<int>, p2: int)
    ensures Insights(s1, p1) == Insights(s2, p2)
  {
  }
}
