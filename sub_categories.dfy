/**
 * A blog's sub-categories: between one and ten identifiers, each rule failure reported
 * as a length message.
 */
module SubCategoryLists {
  import opened Wrappers
  import opened Uuids
  import opened Validation

  /** The most sub-categories a blog may have. */
  const MaxSubCategories: nat := 10

  /** `SubCategories`: the checked list of identifiers. */
  datatype SubCategories = SubCategories(ids: seq<Uuid>)

  /**
   * `SubCategories::from_unchecked`: one to ten identifiers are kept as given; an empty
   * list is reported as `minlen(0, 1)` and a longer one as `maxlen(len, 10)`.
   */
  method FromUnchecked(unchecked: seq<Uuid>) returns (r: Result<SubCategories, Error>)
    ensures r.Success? <==> 1 <= |unchecked| <= MaxSubCategories
    ensures r.Success? ==> r.value.ids == unchecked
    ensures unchecked == [] ==> r == Failure(Field([MinLen(0, 1)]))
    ensures |unchecked| > MaxSubCategories ==> r == Failure(Field([MaxLen(|unchecked|, 10)]))
  {
    var errors := new FieldErrors();
    if |unchecked| == 0 {
      errors.Add(MinLen(0, 1));
    }
    if |unchecked| > 10 {
      errors.Add(MaxLen(|unchecked|, 10));
    }
    assert errors.errors ==
      if unchecked == [] then [MinLen(0, 1)]
      else if |unchecked| > 10 then [MaxLen(|unchecked|, 10)]
      else [];
    if !errors.IsEmpty() {
      return Failure(errors.Into());
    }
    r := Success(SubCategories(unchecked));
  }

  /** `as_ref`: the identifiers, in the order given. */
  function AsRef(s: SubCategories): (r: seq<Uuid>)
    ensures |r| == |s.ids| && forall i :: 0 <= i < |r| ==> r[i] == s.ids[i]
  {
    s.ids
  }
}
