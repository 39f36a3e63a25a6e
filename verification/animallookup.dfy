/**
 The `POST /animal` handler: a JSON body's `animal` field, lower-cased,
 must be one of cat, dog and elephant, and selects the static image
 `/static/images/<animal>.jpg`.
 */
module AnimalLookup {
  import opened Common
  import opened Text
  import opened Http

  /** The closed set of animals, in the order the handler checks them. */
  const Animals: seq<string> := ["cat", "dog", "elephant"]

  const RequiredMessage: string := "Animal selection required"
  const InvalidMessage: string := "Invalid animal selection. Choose cat, dog, or elephant"

  const ImagePrefix: string := "/static/images/"
  const ImageSuffix: string := ".jpg"

  /** A JSON value under the `animal` key: a string, or any other JSON type. */
  datatype JsonValue = Str(text: string) | NonString(typeName: string)

  /** The parsed request body: one that parses to JSON `null`, or a JSON object. */
  datatype Body = NoBody | Object(fields: map<string, JsonValue>)

  /** The success reply: the image path and the normalised animal name. */
  datatype AnimalImage = AnimalImage(imagePath: string, animal: string)

  /** Python's truthiness of the body: `null` or an empty object is false. */
  predicate Falsy(body: Body) {
    body.NoBody? || |body.fields| == 0
  }

  /** The text of the `AttributeError` raised by calling `.lower()` on a non-string. */
  function LowerAttributeError(typeName: string): string {
    "'" + typeName + "' object has no attribute 'lower'"
  }

  /** Where the image of `animal` is served from. */
  function ImagePath(animal: string): (p: string)
    ensures |p| == |ImagePrefix| + |animal| + |ImageSuffix|
    ensures p[..|ImagePrefix|] == ImagePrefix
    ensures p[|ImagePrefix|..|ImagePrefix| + |animal|] == animal
    ensures p[|ImagePrefix| + |animal|..] == ImageSuffix
  {
    ImagePrefix + animal + ImageSuffix
  }

  /** Recovers the animal from an image path, if the path has that shape. */
  function AnimalOfPath(p: string): Option<string> {
    if |p| >= |ImagePrefix| + |ImageSuffix|
       && p[..|ImagePrefix|] == ImagePrefix
       && p[|p| - |ImageSuffix|..] == ImageSuffix
    then Some(p[|ImagePrefix|..|p| - |ImageSuffix|])
    else None
  }

  /** `get_animal_image` on a parsed body. */
  function GetAnimalImage(body: Body): (r: Response<AnimalImage>)
    ensures Falsy(body) || "animal" !in body.fields ==> r == Err(BadRequest, RequiredMessage)
    ensures r.Ok? <==>
      && body.Object?
      && "animal" in body.fields
      && body.fields["animal"].Str?
      && Lower(body.fields["animal"].text) in Animals
    ensures r.Ok? ==>
      && r.body.animal == Lower(body.fields["animal"].text)
      && AnimalOfPath(r.body.imagePath) == Some(r.body.animal)
    ensures (!Falsy(body) && "animal" in body.fields && body.fields["animal"].Str?
             && Lower(body.fields["animal"].text) !in Animals) ==>
      r == Err(BadRequest, InvalidMessage)
    ensures (!Falsy(body) && "animal" in body.fields && body.fields["animal"].NonString?) ==>
      r == Err(InternalError, LowerAttributeError(body.fields["animal"].typeName))
    ensures r.Err? && r.status == InternalError <==>
      !Falsy(body) && "animal" in body.fields && body.fields["animal"].NonString?
  {
    if Falsy(body) || "animal" !in body.fields then
      Err(BadRequest, RequiredMessage)
    else
      match body.fields["animal"]
      case NonString(t) => Err(InternalError, LowerAttributeError(t))
      case Str(v) =>
        var animal := Lower(v);
        if animal !in Animals then
          Err(BadRequest, InvalidMessage)
        else
          var p := ImagePath(animal);
          assert p[|p| - |ImageSuffix|..] == ImageSuffix;
          Ok(AnimalImage(p, animal))
  }

  /** The body `{"animal": v}`. */
  function Select(v: string): Body {
    Object(map["animal" := Str(v)])
  }

  /** Each animal, given in lower case, selects its own image. */
  lemma EachAnimalSelectsItsImage(i: nat)
    requires i < |Animals|
    ensures GetAnimalImage(Select(Animals[i])) == Ok(AnimalImage(ImagePath(Animals[i]), Animals[i]))
  {
    LowerKeepsLowercase(Animals[i]);
  }

  /** The selection ignores letter case: `v` and its lower-case form give the same reply. */
  lemma SelectionIgnoresCase(v: string)
    ensures GetAnimalImage(Select(v)) == GetAnimalImage(Select(Lower(v)))
  {
    LowerIdempotent(v);
  }

  /** A mixed-case worked case: "CaT" selects the cat image. */
  lemma MixedCaseSelectsCat()
    ensures GetAnimalImage(Select("CaT")) == Ok(AnimalImage("/static/images/cat.jpg", "cat"))
  {
    var l := Lower("CaT");
    assert l[0] == LowerChar('C') && l[1] == LowerChar('a') && l[2] == LowerChar('T');
    assert l == "cat";
    assert ImagePath("cat") == "/static/images/cat.jpg";
  }

  /** An empty string is present, so it is an invalid selection, not a missing one. */
  lemma EmptyAnimalIsInvalid()
    ensures GetAnimalImage(Select("")) == Err(BadRequest, InvalidMessage)
  {
    assert Lower("") == "";
  }

  /** An animal outside the set is refused with the "invalid" message. */
  lemma UnknownAnimalIsInvalid()
    ensures GetAnimalImage(Select("giraffe")) == Err(BadRequest, InvalidMessage)
  {
    var l := Lower("giraffe");
    assert |l| == 7;
  }

  /** The "invalid" message names every valid choice. */
  lemma InvalidMessageListsChoices(i: nat)
    requires i < |Animals|
    ensures IsInfix(Animals[i], InvalidMessage)
  {
    if i == 0 {
      assert OccursAt("cat", InvalidMessage, 33);
    } else if i == 1 {
      assert OccursAt("dog", InvalidMessage, 38);
    } else {
      assert OccursAt("elephant", InvalidMessage, 46);
    }
  }

  /** The image path and the animal it names are inverse to each other. */
  lemma ImagePathRoundTrip(animal: string)
    ensures AnimalOfPath(ImagePath(animal)) == Some(animal)
  {
  }
}
