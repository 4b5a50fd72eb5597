/**
 * The film entity's column-value converters: the Rating enum and its
 * converter, the SpecialFeature enum and the converter between a set of
 * features and the comma-joined column value, and the release-year accessors.
 */
module FilmEntity {
  import opened JavaLang

  /** Enum.valueOfColumnValue as both enums write it: the first constant, in
      declaration order, whose column value equals the argument; null is refused
      with NullPointerException and no match with IllegalArgumentException. */
  function ValueOfColumnValue<E>(values: seq<E>, columnValue: E -> string, s: Option<string>): (r: Result<E>)
    ensures s.None? ==> r == Throws(NullPointerException)
    ensures s.Some? && r.Ok? ==>
      r.value in values && columnValue(r.value) == s.value
    ensures s.Some? && r.Ok? ==> exists k :: FirstMatch(values, columnValue, s.value, k) && values[k] == r.value
    ensures s.Some? && r.Throws? ==> r.exception == IllegalArgumentException && NoMatch(values, columnValue, s.value)
  {
    if s.None? then Throws(NullPointerException)
    else Search(values, columnValue, s.value)
  }

  /** The search loop of ValueOfColumnValue. */
  function Search<E>(values: seq<E>, columnValue: E -> string, s: string): (r: Result<E>)
    ensures r.Ok? ==> exists k :: FirstMatch(values, columnValue, s, k) && values[k] == r.value
    ensures r.Throws? ==> r.exception == IllegalArgumentException && NoMatch(values, columnValue, s)
  {
    if |values| == 0 then Throws(IllegalArgumentException)
    else if columnValue(values[0]) == s then
      assert FirstMatch(values, columnValue, s, 0);
      Ok(values[0])
    else
      var r := Search(values[1..], columnValue, s);
      if r.Ok? then
        ghost var k :| FirstMatch(values[1..], columnValue, s, k) && values[1..][k] == r.value;
        assert FirstMatch(values, columnValue, s, k + 1);
        r
      else r
  }

  /** values[k] is the first constant whose column value is s. */
  ghost predicate FirstMatch<E>(values: seq<E>, columnValue: E -> string, s: string, k: int) {
    0 <= k < |values| && columnValue(values[k]) == s &&
    forall j :: 0 <= j < k ==> columnValue(values[j]) != s
  }

  /** No constant has column value s. */
  ghost predicate NoMatch<E>(values: seq<E>, columnValue: E -> string, s: string) {
    forall j :: 0 <= j < |values| ==> columnValue(values[j]) != s
  }

  /** Column values that tell the constants apart. */
  ghost predicate DistinctColumnValues<E>(values: seq<E>, columnValue: E -> string) {
    forall i, j :: 0 <= i < |values| && 0 <= j < |values| && columnValue(values[i]) == columnValue(values[j]) ==> i == j
  }

  /** When column values are distinct, looking up a constant's column value finds that constant. */
  lemma LookupOfColumnValue<E>(values: seq<E>, columnValue: E -> string, k: nat)
    requires k < |values|
    requires DistinctColumnValues(values, columnValue)
    ensures ValueOfColumnValue(values, columnValue, Some(columnValue(values[k]))) == Ok(values[k])
  {
    var r := ValueOfColumnValue(values, columnValue, Some(columnValue(values[k])));
    if r.Ok? {
      var i :| FirstMatch(values, columnValue, columnValue(values[k]), i) && values[i] == r.value;
    }
  }

  // ---------------------------------------------------------------- Rating

  /** Film.Rating, in declaration order G, PG, PG_13, R, NC_17. */
  datatype Rating = G | PG | PG_13 | R | NC_17

  /** Rating.values(). */
  const Ratings: seq<Rating> := [G, PG, PG_13, R, NC_17]

  /** Enum.ordinal() of a rating: its position in Rating.values(). */
  function RatingOrdinal(r: Rating): (k: nat)
    ensures k < |Ratings| && Ratings[k] == r
  {
    match r
    case G => 0
    case PG => 1
    case PG_13 => 2
    case R => 3
    case NC_17 => 4
  }

  /** Enum.name() of a rating constant. */
  function RatingName(r: Rating): string {
    match r
    case G => "G"
    case PG => "PG"
    case PG_13 => "PG_13"
    case R => "R"
    case NC_17 => "NC_17"
  }

  /** The column value a rating constant was declared with, null when its
      constructor was given none. */
  function DeclaredColumnValue(r: Rating): Option<string> {
    match r
    case PG_13 => Some("PG-13")
    case NC_17 => Some("NC-17")
    case _ => None
  }

  /** Rating.columnValue(): the declared column value, or else the constant's name. */
  function RatingColumnValue(r: Rating): (s: string)
    ensures s != ""
    ensures DeclaredColumnValue(r).Some? ==> s == DeclaredColumnValue(r).value
    ensures DeclaredColumnValue(r).None? ==> s == RatingName(r)
  {
    match DeclaredColumnValue(r)
    case Some(v) => v
    case None => RatingName(r)
  }

  /** The column values of the five ratings, as the rating column stores them. */
  lemma RatingColumnValues()
    ensures RatingColumnValue(G) == "G" && RatingColumnValue(PG) == "PG"
    ensures RatingColumnValue(PG_13) == "PG-13" && RatingColumnValue(R) == "R"
    ensures RatingColumnValue(NC_17) == "NC-17"
    ensures forall r :: DeclaredColumnValue(r).None? ==> RatingColumnValue(r) == RatingName(r)
  {
  }

  /** Rating.valueOfColumnValue. */
  function RatingOfColumnValue(s: Option<string>): (r: Result<Rating>)
    ensures r.Ok? ==> s == Some(RatingColumnValue(r.value))
    ensures r.Throws? ==> r.exception == (if s.None? then NullPointerException else IllegalArgumentException)
  {
    ValueOfColumnValue(Ratings, RatingColumnValue, s)
  }

  lemma RatingsDistinct()
    ensures DistinctColumnValues(Ratings, RatingColumnValue)
  {
    RatingColumnValues();
    forall i, j | 0 <= i < |Ratings| && 0 <= j < |Ratings| && RatingColumnValue(Ratings[i]) == RatingColumnValue(Ratings[j])
      ensures i == j
    {
      assert RatingColumnValue(Ratings[i])[..] == RatingColumnValue(Ratings[j])[..];
    }
  }

  /** Every rating comes back from its own column value. */
  lemma RatingRoundTrip(r: Rating)
    ensures RatingOfColumnValue(Some(RatingColumnValue(r))) == Ok(r)
  {
    RatingsDistinct();
    LookupOfColumnValue(Ratings, RatingColumnValue, RatingOrdinal(r));
  }

  /** A rating's constant name is not a column value when a different one was
      declared: "PG_13" is refused. */
  lemma RatingNameIsNotColumnValue()
    ensures RatingOfColumnValue(Some("PG_13")) == Throws(IllegalArgumentException)
    ensures RatingOfColumnValue(Some("NC_17")) == Throws(IllegalArgumentException)
  {
    RatingColumnValues();
    assert "PG_13" != "PG-13" by { assert "PG_13"[2] != "PG-13"[2]; }
    assert "NC_17" != "NC-17" by { assert "NC_17"[2] != "NC-17"[2]; }
  }

  /** RatingConverter.convertToDatabaseColumn. */
  function RatingToDatabaseColumn(attribute: Option<Rating>): (r: Option<string>)
    ensures r.None? <==> attribute.None?
    ensures attribute.Some? ==> RatingOfColumnValue(r) == Ok(attribute.value)
  {
    match attribute
    case None => None
    case Some(a) => RatingRoundTrip(a); Some(RatingColumnValue(a))
  }

  /** RatingConverter.convertToEntityAttribute. */
  function RatingToEntityAttribute(dbData: Option<string>): (r: Result<Option<Rating>>)
    ensures dbData.None? ==> r == Ok(None)
    ensures r.Ok? ==> (r.value.None? <==> dbData.None?)
    ensures r.Ok? && r.value.Some? ==> dbData == RatingToDatabaseColumn(r.value)
    ensures dbData.Some? ==> (r.Throws? <==> RatingOfColumnValue(dbData).Throws?)
    ensures r.Throws? ==> r.exception == IllegalArgumentException
  {
    match dbData
    case None => Ok(None)
    case Some(_) =>
      match RatingOfColumnValue(dbData)
      case Ok(v) => Ok(Some(v))
      case Throws(e) => Throws(e)
  }

  /** The rating converter round-trips every attribute value, null included. */
  lemma RatingConverterRoundTrip(attribute: Option<Rating>)
    ensures RatingToEntityAttribute(RatingToDatabaseColumn(attribute)) == Ok(attribute)
  {
  }

  // -------------------------------------------------------- SpecialFeature

  /** Film.SpecialFeature, in declaration order. */
  datatype SpecialFeature = TRAILERS | COMMENTARIES | DELETED_SCENES | BEHIND_THE_SCENES

  /** SpecialFeature.values(). */
  const SpecialFeatures: seq<SpecialFeature> := [TRAILERS, COMMENTARIES, DELETED_SCENES, BEHIND_THE_SCENES]

  /** Enum.ordinal() of a feature: its position in SpecialFeature.values(). */
  function FeatureOrdinal(f: SpecialFeature): (k: nat)
    ensures k < |SpecialFeatures| && SpecialFeatures[k] == f
  {
    match f
    case TRAILERS => 0
    case COMMENTARIES => 1
    case DELETED_SCENES => 2
    case BEHIND_THE_SCENES => 3
  }

  /** SpecialFeature.columnValue(): never empty and free of the separator the
      converter joins with. */
  function FeatureColumnValue(f: SpecialFeature): (s: string)
    ensures s != "" && ',' !in s
  {
    match f
    case TRAILERS => "Trailers"
    case COMMENTARIES => "Commentaries"
    case DELETED_SCENES => "Deleted Scenes"
    case BEHIND_THE_SCENES => "Behind the Scenes"
  }

  /** No feature's column value is empty or holds the separator, and the four differ. */
  lemma FeatureColumnValuesWellFormed()
    ensures forall f :: FeatureColumnValue(f) != "" && ',' !in FeatureColumnValue(f)
    ensures DistinctColumnValues(SpecialFeatures, FeatureColumnValue)
  {
    forall i, j | 0 <= i < |SpecialFeatures| && 0 <= j < |SpecialFeatures| &&
      FeatureColumnValue(SpecialFeatures[i]) == FeatureColumnValue(SpecialFeatures[j])
      ensures i == j
    {
      assert FeatureColumnValue(SpecialFeatures[i])[0] == FeatureColumnValue(SpecialFeatures[j])[0];
    }
  }

  /** SpecialFeature.valueOfColumnValue. */
  function FeatureOfColumnValue(s: Option<string>): (r: Result<SpecialFeature>)
    ensures r.Ok? ==> s == Some(FeatureColumnValue(r.value))
    ensures r.Throws? ==> r.exception == (if s.None? then NullPointerException else IllegalArgumentException)
  {
    ValueOfColumnValue(SpecialFeatures, FeatureColumnValue, s)
  }

  /** Every feature comes back from its own column value. */
  lemma FeatureRoundTrip(f: SpecialFeature)
    ensures FeatureOfColumnValue(Some(FeatureColumnValue(f))) == Ok(f)
  {
    FeatureColumnValuesWellFormed();
    LookupOfColumnValue(SpecialFeatures, FeatureColumnValue, FeatureOrdinal(f));
  }

  /** Features listed in strictly increasing ordinal: declaration order, each at most once. */
  predicate OrdinalAscending(r: seq<SpecialFeature>) {
    forall i, j :: 0 <= i < j < |r| ==> FeatureOrdinal(r[i]) < FeatureOrdinal(r[j])
  }

  /** The features of a set in declaration order: the iteration order of an EnumSet. */
  function InDeclarationOrder(features: set<SpecialFeature>): (r: seq<SpecialFeature>)
    ensures forall f :: f in r <==> f in features
    ensures OrdinalAscending(r)
  {
    forall f ensures f in SpecialFeatures {
      assert SpecialFeatures[FeatureOrdinal(f)] == f;
    }
    assert OrdinalAscending(SpecialFeatures);
    KeepAscending(SpecialFeatures, features);
    Keep(SpecialFeatures, features)
  }

  /** The elements of order that lie in s, in the order they appear. */
  function Keep(order: seq<SpecialFeature>, s: set<SpecialFeature>): (r: seq<SpecialFeature>)
    ensures forall f :: f in r <==> f in order && f in s
    ensures |r| <= |order|
  {
    if |order| == 0 then []
    else if order[0] in s then [order[0]] + Keep(order[1..], s)
    else Keep(order[1..], s)
  }

  /** Keeping part of a sequence in declaration order leaves it in declaration order. */
  lemma {:induction false} KeepAscending(order: seq<SpecialFeature>, s: set<SpecialFeature>)
    requires OrdinalAscending(order)
    ensures OrdinalAscending(Keep(order, s))
    decreases |order|
  {
    if |order| > 0 {
      var rest := order[1..];
      assert OrdinalAscending(rest) by {
        forall i, j | 0 <= i < j < |rest| ensures FeatureOrdinal(rest[i]) < FeatureOrdinal(rest[j]) {
          assert rest[i] == order[i + 1] && rest[j] == order[j + 1];
        }
      }
      KeepAscending(rest, s);
      if order[0] in s {
        var kept := Keep(rest, s);
        var r := [order[0]] + kept;
        forall i, j | 0 <= i < j < |r| ensures FeatureOrdinal(r[i]) < FeatureOrdinal(r[j]) {
          if i == 0 {
            assert r[j] in rest;
            var k :| 0 <= k < |rest| && rest[k] == r[j];
            assert order[k + 1] == r[j];
          }
        }
      }
    }
  }

  /** The head of a sequence in declaration order precedes all the rest, which
      is in declaration order too. */
  lemma OrdinalHeadIsLeast(s: seq<SpecialFeature>)
    requires OrdinalAscending(s) && s != []
    ensures forall f :: f in s[1..] ==> FeatureOrdinal(s[0]) < FeatureOrdinal(f)
    ensures OrdinalAscending(s[1..])
  {
    var rest := s[1..];
    forall f | f in rest ensures FeatureOrdinal(s[0]) < FeatureOrdinal(f) {
      var i :| 0 <= i < |rest| && rest[i] == f;
      assert s[i + 1] == f;
    }
    forall i, j | 0 <= i < j < |rest| ensures FeatureOrdinal(rest[i]) < FeatureOrdinal(rest[j]) {
      assert rest[i] == s[i + 1] && rest[j] == s[j + 1];
    }
  }

  /** Declaration order is the only order of a set's features that lists each
      once in increasing ordinal. */
  lemma {:induction false} OrdinalAscendingUnique(a: seq<SpecialFeature>, b: seq<SpecialFeature>)
    requires OrdinalAscending(a) && OrdinalAscending(b)
    requires forall f :: f in a <==> f in b
    ensures a == b
    decreases |a|
  {
    if a != [] { assert a[0] in a; }
    if b != [] { assert b[0] in b; }
    if a != [] && b != [] {
      OrdinalHeadIsLeast(a);
      OrdinalHeadIsLeast(b);
      assert a == [a[0]] + a[1..];
      assert b == [b[0]] + b[1..];
      assert a[0] in b && b[0] in a;
      assert FeatureOrdinal(a[0]) == FeatureOrdinal(b[0]);
      assert a[0] == SpecialFeatures[FeatureOrdinal(a[0])] == b[0];
      forall f ensures f in a[1..] <==> f in b[1..] {
        if f in a[1..] {
          assert FeatureOrdinal(a[0]) < FeatureOrdinal(f);
          assert f in a && f in b && f != b[0];
        }
        if f in b[1..] {
          assert FeatureOrdinal(b[0]) < FeatureOrdinal(f);
          assert f in b && f in a && f != a[0];
        }
      }
      OrdinalAscendingUnique(a[1..], b[1..]);
    }
  }

  /** The column values of features in the given order. */
  function ColumnValues(features: seq<SpecialFeature>): (r: seq<string>)
    ensures |r| == |features|
    ensures forall i :: 0 <= i < |r| ==> r[i] == FeatureColumnValue(features[i])
  {
    if |features| == 0 then [] else [FeatureColumnValue(features[0])] + ColumnValues(features[1..])
  }

  /** SpecialFeaturesConverter.convertToDatabaseColumn for a set iterated in the
      given order: the column values joined with commas. */
  function EncodeInOrder(order: seq<SpecialFeature>): (r: string)
    ensures r == "" <==> order == []
  {
    Join(ColumnValues(order), ',')
  }


  /** SpecialFeaturesConverter.convertToDatabaseColumn for the EnumSet the
      converter itself produces, whose iteration order is declaration order. */
  function FeaturesToDatabaseColumn(attribute: Option<set<SpecialFeature>>): (r: Option<string>)
    ensures r.None? <==> attribute.None?
    ensures attribute == Some({}) ==> r == Some("")
  {
    match attribute
    case None => None
    case Some(s) => Some(EncodeInOrder(InDeclarationOrder(s)))
  }

  /** Maps every token to its feature and collects them into a set; the first
      token that is not a column value throws IllegalArgumentException. */
  function FeaturesOfTokens(tokens: seq<string>): (r: Result<set<SpecialFeature>>)
    ensures r.Ok? <==> forall i :: 0 <= i < |tokens| ==> FeatureOfColumnValue(Some(tokens[i])).Ok?
    ensures r.Ok? ==> forall f :: f in r.value <==> FeatureColumnValue(f) in tokens
    ensures r.Throws? ==> r.exception == IllegalArgumentException
  {
    if |tokens| == 0 then Ok({})
    else
      match FeatureOfColumnValue(Some(tokens[0]))
      case Throws(e) => Throws(e)
      case Ok(f) =>
        match FeaturesOfTokens(tokens[1..])
        case Throws(e) => Throws(e)
        case Ok(rest) =>
          assert tokens == [tokens[0]] + tokens[1..];
          FeatureColumnValuesWellFormed();
          forall g ensures g in {f} + rest <==> FeatureColumnValue(g) in tokens {
            if FeatureColumnValue(g) == tokens[0] {
              FeatureRoundTrip(g);
            }
          }
          Ok({f} + rest)
  }

  /** SpecialFeaturesConverter.convertToEntityAttribute: split at commas (with the
      JDK's rules), map each token, collect into an EnumSet. */
  function FeaturesToEntityAttribute(dbData: Option<string>): (r: Result<Option<set<SpecialFeature>>>)
    ensures dbData.None? ==> r == Ok(None)
    ensures r.Throws? ==> r.exception == IllegalArgumentException
    ensures dbData.Some? && r.Ok? ==> (r.value.Some? &&
      forall f :: f in r.value.value <==> FeatureColumnValue(f) in Split(dbData.value, ','))
    ensures dbData.Some? ==> (r.Ok? <==>
      forall t :: t in Split(dbData.value, ',') ==> FeatureOfColumnValue(Some(t)).Ok?)
  {
    match dbData
    case None => Ok(None)
    case Some(s) =>
      match FeaturesOfTokens(Split(s, ','))
      case Ok(features) => Ok(Some(features))
      case Throws(e) => Throws(e)
  }

  /** Two features with the same column value are the same feature. */
  lemma FeatureColumnValueInjective(f: SpecialFeature, g: SpecialFeature)
    requires FeatureColumnValue(f) == FeatureColumnValue(g)
    ensures f == g
  {
    FeatureRoundTrip(f);
    FeatureRoundTrip(g);
  }

  /** A feature's column value is among those of a sequence exactly when the
      feature is. */
  lemma ColumnValueIn(order: seq<SpecialFeature>, f: SpecialFeature)
    ensures FeatureColumnValue(f) in ColumnValues(order) <==> f in order
  {
    var parts := ColumnValues(order);
    if f in order {
      var i :| 0 <= i < |order| && order[i] == f;
      assert parts[i] == FeatureColumnValue(f);
    }
    if FeatureColumnValue(f) in parts {
      var i :| 0 <= i < |parts| && parts[i] == FeatureColumnValue(f);
      FeatureColumnValueInjective(order[i], f);
    }
  }

  /** Splitting an encoding at commas recovers the column values, one per feature. */
  lemma SplitOfEncoding(order: seq<SpecialFeature>)
    requires |order| >= 1
    ensures Split(EncodeInOrder(order), ',') == ColumnValues(order)
  {
    var parts := ColumnValues(order);
    forall i | 0 <= i < |parts| ensures ',' !in parts[i] && parts[i] != "" {
      FeatureColumnValuesWellFormed();
    }
    SplitOfJoin(parts, ',');
  }

  /** Every column value of a feature sequence reads back as a feature. */
  lemma ColumnValuesAreTokens(order: seq<SpecialFeature>)
    ensures forall i :: 0 <= i < |order| ==> FeatureOfColumnValue(Some(ColumnValues(order)[i])).Ok?
  {
    forall i | 0 <= i < |order| ensures FeatureOfColumnValue(Some(ColumnValues(order)[i])).Ok? {
      var f := order[i];
      assert ColumnValues(order)[i] == FeatureColumnValue(f);
      FeatureRoundTrip(f);
    }
  }

  /** Decoding an encoding of a non-empty set, iterated in any order, gives back
      the set. */
  lemma FeaturesRoundTripInOrder(order: seq<SpecialFeature>)
    requires |order| >= 1
    ensures FeaturesToEntityAttribute(Some(EncodeInOrder(order))) == Ok(Some(set f | f in order))
  {
    var parts := ColumnValues(order);
    SplitOfEncoding(order);
    ColumnValuesAreTokens(order);
    var r := FeaturesOfTokens(parts);
    assert r.Ok?;
    forall f ensures f in r.value <==> f in order {
      ColumnValueIn(order, f);
    }
    assert r.value == set f | f in order;
    assert FeaturesToEntityAttribute(Some(EncodeInOrder(order))) == Ok(Some(r.value));
  }

  /** For every non-empty feature set, the converter's decode inverts its encode. */
  lemma FeaturesRoundTrip(features: set<SpecialFeature>)
    requires features != {}
    ensures FeaturesToEntityAttribute(FeaturesToDatabaseColumn(Some(features))) == Ok(Some(features))
  {
    var order := InDeclarationOrder(features);
    var f :| f in features;
    assert f in order;
    FeaturesRoundTripInOrder(order);
    SetOfOrder(order, features);
  }

  /** The set of a sequence's elements is the set it was listed from. */
  lemma SetOfOrder(order: seq<SpecialFeature>, features: set<SpecialFeature>)
    requires forall f :: f in order <==> f in features
    ensures (set g | g in order) == features
  {
  }

  /** The null attribute and the null column value correspond. */
  lemma FeaturesNullRoundTrip()
    ensures FeaturesToDatabaseColumn(None) == None
    ensures FeaturesToEntityAttribute(None) == Ok(None)
  {
  }

  /** The empty set is written as "", which reads back as an error: split yields
      [""], and "" is no feature's column value. */
  lemma EmptyFeaturesDoNotRoundTrip()
    ensures FeaturesToDatabaseColumn(Some({})) == Some("")
    ensures Split("", ',') == [""]
    ensures FeaturesToEntityAttribute(Some("")) == Throws(IllegalArgumentException)
  {
    FeatureColumnValuesWellFormed();
    assert !FeatureOfColumnValue(Some(Split("", ',')[0])).Ok?;
  }

  /** A lone comma splits into no tokens at all and so reads as the empty set. */
  lemma LoneCommaIsEmptySet()
    ensures Split(",", ',') == []
    ensures FeaturesToEntityAttribute(Some(",")) == Ok(Some({}))
  {
    assert Segments(",", ',') == ["", ""] by {
      assert ","[1..] == "";
    }
    assert DropTrailingEmpty(["", ""]) == [] by {
      assert ["", ""][..1] == [""];
      assert [""][..0] == [];
    }
  }

  /** The column value "Commentaries,Trailers,Trailers" is the encoding of
      those three features in that order. */
  lemma RepeatedFeaturesEncoding()
    ensures EncodeInOrder([COMMENTARIES, TRAILERS, TRAILERS]) == "Commentaries,Trailers,Trailers"
  {
    var parts := ColumnValues([COMMENTARIES, TRAILERS, TRAILERS]);
    assert parts == ["Commentaries", "Trailers", "Trailers"];
    assert Join(parts[1..], ',') == "Trailers,Trailers" by {
      assert parts[1..][1..] == ["Trailers"];
    }
  }

  /** Decoding deduplicates: the column value of RepeatedFeaturesEncoding,
      "Commentaries,Trailers,Trailers", reads as the two-element set. */
  lemma DecodeDeduplicates()
    ensures FeaturesToEntityAttribute(Some(EncodeInOrder([COMMENTARIES, TRAILERS, TRAILERS]))) ==
      Ok(Some({COMMENTARIES, TRAILERS}))
  {
    FeaturesRoundTripInOrder([COMMENTARIES, TRAILERS, TRAILERS]);
    RepeatedFeaturesSet();
  }

  lemma RepeatedFeaturesSet()
    ensures (set f | f in [COMMENTARIES, TRAILERS, TRAILERS]) == {COMMENTARIES, TRAILERS}
  {
    var read := [COMMENTARIES, TRAILERS, TRAILERS];
    assert read[0] == COMMENTARIES && read[1] == TRAILERS;
  }

  /** Encoding lists the features in declaration order, whatever order they were read in. */
  lemma EncodeInDeclarationOrder()
    ensures FeaturesToDatabaseColumn(Some({COMMENTARIES, TRAILERS})) == Some("Trailers,Commentaries")
  {
    var s := {COMMENTARIES, TRAILERS};
    var tail := SpecialFeatures[1..][1..];
    assert tail == [DELETED_SCENES, BEHIND_THE_SCENES];
    assert Keep(tail[1..], s) == [] by {
      assert tail[1..][1..] == [];
    }
    assert Keep(tail, s) == [];
    assert InDeclarationOrder(s) == [TRAILERS, COMMENTARIES];
    assert ColumnValues([TRAILERS, COMMENTARIES]) == ["Trailers", "Commentaries"];
    assert Join(["Trailers", "Commentaries"], ',') == "Trailers,Commentaries";
  }

  /** Decoding a column value and encoding the result again is canonical: the
      re-encoding lists the distinct features named by the tokens, in
      declaration order, whatever order and repeats the column held. */
  lemma ReencodeIsCanonical(dbData: string, r: seq<SpecialFeature>)
    requires FeaturesToEntityAttribute(Some(dbData)).Ok?
    requires OrdinalAscending(r)
    requires forall f :: f in r <==> FeatureColumnValue(f) in Split(dbData, ',')
    ensures FeaturesToDatabaseColumn(Some(FeaturesToEntityAttribute(Some(dbData)).value.value)) ==
      Some(EncodeInOrder(r))
  {
    var decoded := FeaturesToEntityAttribute(Some(dbData)).value.value;
    OrdinalAscendingUnique(InDeclarationOrder(decoded), r);
  }

  // ---------------------------------------------------------------- entity

  /** A java.time.temporal.TemporalAccessor, seen through its ChronoField.YEAR
      field: None when the accessor does not support that field. */
  datatype TemporalAccessor = TemporalAccessor(year: Option<int>)

  /** The film entity's converted and release-year attributes. */
  class Film {
    var releaseYear: Option<int>
    var rating: Option<Rating>
    var specialFeatures: Option<set<SpecialFeature>>

    constructor ()
      ensures releaseYear == None && rating == None && specialFeatures == None
    {
      releaseYear, rating, specialFeatures := None, None, None;
    }

    /** getReleaseYearAsTemporalAccessor: the release year mapped through the
        mapper, null when the year is null or the mapper maps it to null; a null
        mapper is refused. */
    method GetReleaseYearAsTemporalAccessor<T>(mapper: Option<int -> Option<T>>) returns (r: Result<Option<T>>)
      ensures r.Throws? <==> mapper.None?
      ensures r.Throws? ==> r.exception == NullPointerException
      ensures r.Ok? && releaseYear.None? ==> r.value.None?
      ensures r.Ok? && releaseYear.Some? ==> r.value == mapper.value(releaseYear.value)
    {
      if mapper.None? {
        return Throws(NullPointerException);
      }
      match releaseYear
      case None => r := Ok(None);
      case Some(y) => r := Ok(mapper.value(y));
    }

    /** setReleaseYearAsTemporalAccessor: the accessor's YEAR field, or null for a
        null accessor; an accessor without that field throws before anything changes. */
    method SetReleaseYearAsTemporalAccessor(accessor: Option<TemporalAccessor>) returns (r: Result<()>)
      modifies this`releaseYear
      ensures accessor.None? ==> r.Ok? && releaseYear == None
      ensures accessor.Some? && accessor.value.year.Some? ==> r.Ok? && releaseYear == accessor.value.year
      ensures accessor.Some? && accessor.value.year.None? ==>
        r == Throws(UnsupportedTemporalTypeException) && releaseYear == old(releaseYear)
    {
      match accessor
      case None =>
        releaseYear := None;
        r := Ok(());
      case Some(ta) =>
        if ta.year.None? {
          return Throws(UnsupportedTemporalTypeException);
        }
        releaseYear := ta.year;
        r := Ok(());
    }

    /** getRating. */
    method GetRating() returns (r: Option<Rating>)
      ensures r == rating
    {
      r := rating;
    }

    /** setRating. */
    method SetRating(value: Option<Rating>)
      modifies this`rating
      ensures rating == value
    {
      rating := value;
    }

    /** getSpecialFeatures. */
    method GetSpecialFeatures() returns (r: Option<set<SpecialFeature>>)
      ensures r == specialFeatures
    {
      r := specialFeatures;
    }

    /** setSpecialFeatures. */
    method SetSpecialFeatures(value: Option<set<SpecialFeature>>)
      modifies this`specialFeatures
      ensures specialFeatures == value
    {
      specialFeatures := value;
    }
  }

  /** Setting the release year from an accessor and reading it back through a
      mapper yields the mapped YEAR field. */
  method ReleaseYearRoundTrip<T>(film: Film, year: int, mapper: int -> Option<T>) returns (r: Result<Option<T>>)
    modifies film
    ensures r == Ok(mapper(year))
  {
    var ignored := film.SetReleaseYearAsTemporalAccessor(Some(TemporalAccessor(Some(year))));
    r := film.GetReleaseYearAsTemporalAccessor(Some(mapper));
  }
}
