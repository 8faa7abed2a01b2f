/** getCurrentPage: which page script to start, from the URL path. */
module Navigation {

  datatype Page = Form | Dashboard | Home

  /** `hay.includes(needle)`, scanning from the left. */
  predicate Includes(hay: string, needle: string) {
    needle <= hay || (hay != [] && Includes(hay[1..], needle))
  }

  /** needle occurs at some position of hay. */
  ghost predicate OccursAt(hay: string, needle: string, i: int) {
    0 <= i && i + |needle| <= |hay| && hay[i..i + |needle|] == needle
  }

  lemma {:induction false} IncludesIffOccurs(hay: string, needle: string)
    ensures Includes(hay, needle) <==> exists i :: OccursAt(hay, needle, i)
  {
    if Includes(hay, needle) {
      var i := IncludesWitness(hay, needle);
    } else {
      forall i | OccursAt(hay, needle, i) ensures false {
        OccursIncludes(hay, needle, i);
      }
    }
  }

  lemma {:induction false} IncludesWitness(hay: string, needle: string) returns (i: int)
    requires Includes(hay, needle)
    ensures OccursAt(hay, needle, i)
  {
    if needle <= hay {
      assert hay[0..|needle|] == needle;
      i := 0;
    } else {
      var j := IncludesWitness(hay[1..], needle);
      assert hay[1..][j..j + |needle|] == hay[j + 1..j + 1 + |needle|];
      i := j + 1;
    }
  }

  lemma {:induction false} OccursIncludes(hay: string, needle: string, i: int)
    requires OccursAt(hay, needle, i)
    ensures Includes(hay, needle)
    decreases i
  {
    if i > 0 {
      assert hay[1..][i - 1..i - 1 + |needle|] == hay[i..i + |needle|];
      OccursIncludes(hay[1..], needle, i - 1);
    }
  }

  function GetCurrentPage(path: string): (p: Page)
    ensures p == Form <==> Includes(path, "rescue-form")
    ensures p == Dashboard <==> !Includes(path, "rescue-form") && Includes(path, "admin-dashboard")
  {
    if Includes(path, "rescue-form") then Form
    else if Includes(path, "admin-dashboard") then Dashboard
    else Home
  }

  /** The form test comes first: a path naming both pages starts the form. */
  lemma FormTakesPriority(path: string)
    requires exists i :: OccursAt(path, "rescue-form", i)
    ensures GetCurrentPage(path) == Form
  {
    IncludesIffOccurs(path, "rescue-form");
  }

  /** A path naming neither page is the home page. */
  lemma OtherPathsAreHome(path: string)
    requires forall i :: !OccursAt(path, "rescue-form", i) && !OccursAt(path, "admin-dashboard", i)
    ensures GetCurrentPage(path) == Home
  {
    IncludesIffOccurs(path, "rescue-form");
    IncludesIffOccurs(path, "admin-dashboard");
  }
}
