/**
 * Reference numbers: a category name, a hyphen, and the decimal form of the
 * store's counter (`f"{category}-{store['last_number']}"`).
 */
module Reference {

  import opened Wrappers
  import opened Decimal

  /** The four choices of the category select box. */
  datatype Category = MCE | ELEC | CIVIL | OTHER

  const Separator: char := '-'

  /** The text shown for, and stored with, each category; none contains the separator. */
  function CategoryName(c: Category): (s: string)
    ensures |s| > 0 && Separator !in s
  {
    match c
    case MCE => "MCE"
    case ELEC => "ELEC"
    case CIVIL => "CIVIL"
    case OTHER => "OTHER"
  }

  /** Recognises a category name; succeeds exactly on the four names. */
  function CategoryFromName(s: string): (r: Option<Category>)
    ensures r.Some? ==> CategoryName(r.value) == s
    ensures forall c: Category :: CategoryName(c) == s ==> r == Some(c)
  {
    if s == "MCE" then Some(MCE)
    else if s == "ELEC" then Some(ELEC)
    else if s == "CIVIL" then Some(CIVIL)
    else if s == "OTHER" then Some(OTHER)
    else None
  }

  function FormatReference(c: Category, n: nat): string {
    CategoryName(c) + [Separator] + NatToString(n)
  }

  /** Splits `s` around the first occurrence of `sep`; fails when `sep` does not occur. */
  function SplitAtFirst(s: string, sep: char): (r: Option<(string, string)>)
    ensures r.None? <==> sep !in s
    ensures r.Some? ==> s == r.value.0 + [sep] + r.value.1 && sep !in r.value.0
  {
    if s == [] then None
    else if s[0] == sep then Some(([], s[1..]))
    else match SplitAtFirst(s[1..], sep)
      case None => None
      case Some((before, after)) => Some(([s[0]] + before, after))
  }

  /** A string made of a separator-free part, the separator and a rest splits back into those parts. */
  lemma {:induction false} SplitAtFirstJoin(before: string, sep: char, after: string)
    requires sep !in before
    ensures SplitAtFirst(before + [sep] + after, sep) == Some((before, after))
  {
    var s := before + [sep] + after;
    if before == [] {
      assert s[1..] == after;
    } else {
      assert s[0] == before[0];
      assert s[1..] == before[1..] + [sep] + after;
      SplitAtFirstJoin(before[1..], sep, after);
      assert [s[0]] + before[1..] == before;
    }
  }

  /** Recovers the category and the number from a reference string. */
  function ParseReference(s: string): Option<(Category, nat)> {
    match SplitAtFirst(s, Separator)
    case None => None
    case Some((name, digits)) =>
      match (CategoryFromName(name), ParseNat(digits))
      case (Some(c), Some(n)) => Some((c, n))
      case _ => None
  }

  /** Splitting a generated reference at its first hyphen gives back the category and the number. */
  lemma ParseFormatReference(c: Category, n: nat)
    ensures ParseReference(FormatReference(c, n)) == Some((c, n))
  {
    SplitAtFirstJoin(CategoryName(c), Separator, NatToString(n));
    ParseNatToString(n);
  }

  /** Two references are equal only when both category and number are. */
  lemma FormatReferenceInjective(c1: Category, n1: nat, c2: Category, n2: nat)
    ensures FormatReference(c1, n1) == FormatReference(c2, n2) <==> c1 == c2 && n1 == n2
  {
    ParseFormatReference(c1, n1);
    ParseFormatReference(c2, n2);
  }

}
