/**
 * Rows the database returns inline: a list of records separated by `;`, each record
 * a comma-separated `id,name[,color]`. A record decodes by position; the list decodes
 * only if every record does.
 */
module InlineDecode {
  import opened Wrappers
  import opened Text
  import opened Uuids

  /** `Uuid::parse_str`, which the model does not define: a string to a UUID, if it is one. */
  type UuidParser = string -> Option<Uuid>

  // ------------------------------------------------------------------ tag

  datatype TagError = TagId | TagName | TagColor

  datatype HeadlessTag = HeadlessTag(id: Uuid, name: string, color: string)

  /** `HeadlessTag::from_inline`: the first three comma-separated parts, in order. */
  function TagFromInline(parseUuid: UuidParser, inline: string): (r: Result<HeadlessTag, TagError>)
    ensures var parts := Split(inline, ',');
      && (r == Failure(TagId) <==> parseUuid(parts[0]).None?)
      && (r == Failure(TagName) <==> parseUuid(parts[0]).Some? && |parts| < 2)
      && (r == Failure(TagColor) <==> parseUuid(parts[0]).Some? && |parts| == 2)
      && (r.Success? ==> r.value == HeadlessTag(parseUuid(parts[0]).value, parts[1], parts[2]))
  {
    var parts := Split(inline, ',');
    match parseUuid(parts[0])
    case None => Failure(TagId)
    case Some(id) =>
      if |parts| < 2 then Failure(TagName)
      else if |parts| < 3 then Failure(TagColor)
      else Success(HeadlessTag(id, parts[1], parts[2]))
  }

  /**
   * Encoding a tag as `id,name,color` (followed by any further parts) and decoding it
   * gives the tag back, whenever the parser reads the id's text and no part has a comma.
   */
  lemma TagRoundTrip(parseUuid: UuidParser, parts: seq<string>, tag: HeadlessTag)
    requires |parts| >= 3 && forall i :: 0 <= i < |parts| ==> ',' !in parts[i]
    requires parseUuid(parts[0]) == Some(tag.id) && parts[1] == tag.name && parts[2] == tag.color
    ensures TagFromInline(parseUuid, Join(parts, ',')) == Success(tag)
  {
    SplitJoin(parts, ',');
  }

  // --------------------------------------------------------- sub-category

  datatype SubCategoryError = SubCategoryId | SubCategoryName

  datatype HeadlessSubCategory = HeadlessSubCategory(id: Uuid, name: string)

  /** `HeadlessSubCategory::from_inline`: the first two comma-separated parts, in order. */
  function SubCategoryFromInline(parseUuid: UuidParser, inline: string): (r: Result<HeadlessSubCategory, SubCategoryError>)
    ensures var parts := Split(inline, ',');
      && (r == Failure(SubCategoryId) <==> parseUuid(parts[0]).None?)
      && (r == Failure(SubCategoryName) <==> parseUuid(parts[0]).Some? && |parts| < 2)
      && (r.Success? ==> r.value == HeadlessSubCategory(parseUuid(parts[0]).value, parts[1]))
  {
    var parts := Split(inline, ',');
    match parseUuid(parts[0])
    case None => Failure(SubCategoryId)
    case Some(id) =>
      if |parts| < 2 then Failure(SubCategoryName)
      else Success(HeadlessSubCategory(id, parts[1]))
  }

  /** Encoding a sub-category as `id,name` (and any further parts) and decoding it gives it back. */
  lemma SubCategoryRoundTrip(parseUuid: UuidParser, parts: seq<string>, sub: HeadlessSubCategory)
    requires |parts| >= 2 && forall i :: 0 <= i < |parts| ==> ',' !in parts[i]
    requires parseUuid(parts[0]) == Some(sub.id) && parts[1] == sub.name
    ensures SubCategoryFromInline(parseUuid, Join(parts, ',')) == Success(sub)
  {
    SplitJoin(parts, ',');
  }

  /** A record without a comma has an id at most: its name is missing. */
  lemma LoneIdHasNoName(parseUuid: UuidParser, inline: string)
    requires ',' !in inline && parseUuid(inline).Some?
    ensures SubCategoryFromInline(parseUuid, inline) == Failure(SubCategoryName)
    ensures TagFromInline(parseUuid, inline) == Failure(TagName)
  {
    assert IndexOf(inline, ',').None?;
  }

  // ------------------------------------------------------------ inline vec

  /**
   * `collect::<Result<Vec<_>, _>>` over `pieces` decoded by `fromInline`: every value
   * in order, or the error of the first piece that fails.
   */
  function CollectAll<T, E>(fromInline: string -> Result<T, E>, pieces: seq<string>): (r: Result<seq<T>, E>)
  {
    if pieces == [] then Success([])
    else match fromInline(pieces[0])
      case Failure(e) => Failure(e)
      case Success(v) =>
        match CollectAll(fromInline, pieces[1..])
        case Failure(e) => Failure(e)
        case Success(vs) => Success([v] + vs)
  }

  /**
   * The collection succeeds exactly when every piece decodes, with one value per piece
   * in order; otherwise it fails with the error of the first failing piece.
   */
  lemma {:induction false} CollectAllFacts<T, E>(fromInline: string -> Result<T, E>, pieces: seq<string>)
    ensures var r := CollectAll(fromInline, pieces);
      && (r.Success? <==> forall i :: 0 <= i < |pieces| ==> fromInline(pieces[i]).Success?)
      && (r.Success? ==>
            |r.value| == |pieces| &&
            forall i :: 0 <= i < |pieces| ==> r.value[i] == fromInline(pieces[i]).value)
      && (r.Failure? ==>
            exists k :: (0 <= k < |pieces| && fromInline(pieces[k]).Failure? &&
              r.error == fromInline(pieces[k]).error &&
              forall i :: 0 <= i < k ==> fromInline(pieces[i]).Success?))
  {
    if pieces != [] {
      CollectAllFacts(fromInline, pieces[1..]);
      var r := CollectAll(fromInline, pieces);
      var rest := CollectAll(fromInline, pieces[1..]);
      assert forall i :: 1 <= i < |pieces| ==> pieces[i] == pieces[1..][i - 1];
      if fromInline(pieces[0]).Failure? {
        assert fromInline(pieces[0]).Failure? && r.error == fromInline(pieces[0]).error;
      } else if rest.Failure? {
        var k :| 0 <= k < |pieces[1..]| && fromInline(pieces[1..][k]).Failure?
          && rest.error == fromInline(pieces[1..][k]).error
          && forall i :: 0 <= i < k ==> fromInline(pieces[1..][i]).Success?;
        assert fromInline(pieces[k + 1]).Failure? && r.error == fromInline(pieces[k + 1]).error;
        assert forall i :: 0 <= i < k + 1 ==> fromInline(pieces[i]).Success? by {
          forall i | 0 <= i < k + 1 ensures fromInline(pieces[i]).Success? {
            if i > 0 { assert pieces[i] == pieces[1..][i - 1]; }
          }
        }
      } else {
        assert forall i :: 1 <= i < |pieces| ==> r.value[i] == rest.value[i - 1];
      }
    }
  }

  /** `InlineVec`: the decoded records. */
  datatype InlineVec<T> = InlineVec(items: seq<T>)

  /** `InlineVec::decode`: the row split on `;`, every piece decoded by `from_inline`. */
  function Decode<T, E>(fromInline: string -> Result<T, E>, row: string): Result<InlineVec<T>, E>
  {
    match CollectAll(fromInline, Split(row, ';'))
    case Failure(e) => Failure(e)
    case Success(items) => Success(InlineVec(items))
  }

  /** `into_inner`: the decoded records as they are. */
  function IntoInner<T>(v: InlineVec<T>): (r: seq<T>)
    ensures |r| == |v.items| && forall i :: 0 <= i < |r| ==> r[i] == v.items[i]
  {
    v.items
  }

  /**
   * Decoding records joined by `;` gives one item per record, in order, exactly when
   * every record decodes.
   */
  lemma DecodeJoined<T, E>(fromInline: string -> Result<T, E>, records: seq<string>)
    requires |records| >= 1 && forall i :: 0 <= i < |records| ==> ';' !in records[i]
    ensures var r := Decode(fromInline, Join(records, ';'));
      && (r.Success? <==> forall i :: 0 <= i < |records| ==> fromInline(records[i]).Success?)
      && (r.Success? ==>
            |r.value.items| == |records| &&
            forall i :: 0 <= i < |records| ==> r.value.items[i] == fromInline(records[i]).value)
  {
    SplitJoin(records, ';');
    CollectAllFacts(fromInline, records);
  }

  /** Any decoded row has one item per `;`-separated piece. */
  lemma DecodeCountsPieces<T, E>(fromInline: string -> Result<T, E>, row: string)
    requires Decode(fromInline, row).Success?
    ensures |Decode(fromInline, row).value.items| == |Split(row, ';')|
    ensures forall i :: 0 <= i < |Split(row, ';')| ==>
      fromInline(Split(row, ';')[i]).Success? &&
      Decode(fromInline, row).value.items[i] == fromInline(Split(row, ';')[i]).value
  {
    CollectAllFacts(fromInline, Split(row, ';'));
  }
}
