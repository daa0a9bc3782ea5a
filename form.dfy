/** The product-description form: its four pieces of view state and the
    handlers that change them (image upload and removal, language toggle,
    and the generate request split at its await into begin and complete). */
module Form {
  import opened Wrappers
  import Selection
  import Languages

  /** One entry of the generation response: a language code and its text. */
  datatype Description = Description(language: string, description: string)

  /** The body posted to the description endpoint. */
  datatype GenerateRequest = GenerateRequest(languages: seq<string>, imageUrl: string)

  /** JavaScript truthiness of the `image` state: `null` and `""` are both falsy. */
  predicate HasImage(image: Option<string>)
  {
    image.Some? && image.value != ""
  }

  /** `handleSubmit` goes past its early return. */
  predicate SubmitProceeds(image: Option<string>, selected: seq<string>)
  {
    HasImage(image) && |selected| != 0
  }

  /** The early return of `handleSubmit`: a null image, an empty URL or an empty
      selection stops the submit; a non-empty URL with some language lets it through. */
  lemma SubmitGuardCases(selected: seq<string>, url: string)
    ensures !SubmitProceeds(None, selected)
    ensures !SubmitProceeds(Some(""), selected)
    ensures !SubmitProceeds(Some(url), [])
    ensures url != "" && selected != [] ==> SubmitProceeds(Some(url), selected)
  {
  }

  /** The `disabled` expression of the generate button: the button is enabled exactly
      when `handleSubmit` would go past its early return and no request is in flight. */
  function SubmitDisabled(image: Option<string>, selected: seq<string>, isLoading: bool): (disabled: bool)
    ensures !disabled <==> SubmitProceeds(image, selected) && !isLoading
  {
    !HasImage(image) || |selected| == 0 || isLoading
  }

  /** The display names heading the generated descriptions, in response order. */
  function Headings(descriptions: seq<Description>): (r: seq<Option<string>>)
    ensures |r| == |descriptions|
    ensures forall i :: 0 <= i < |descriptions| ==> r[i] == Languages.NameOf(descriptions[i].language)
  {
    Languages.Names(seq(|descriptions|, i requires 0 <= i < |descriptions| => descriptions[i].language))
  }

  class FormController {
    /** The uploaded image's URL, `null` before an upload or after removal. */
    var image: Option<string>
    /** The picked language codes, in picking order. */
    var selected: seq<string>
    /** The last generation response, shown below the form. */
    var descriptions: seq<Description>
    /** A generate request is in flight. */
    var isLoading: bool

    /** The selection stays within capacity, without repeats, and inside the catalog
        (the picker only offers catalog codes). */
    ghost predicate Valid()
      reads this
    {
      Selection.Valid(selected) &&
      forall c :: c in selected ==> c in Languages.Codes(Languages.Catalog)
    }

    /** The initial state of the page. */
    constructor ()
      ensures Valid()
      ensures image == None && selected == [] && descriptions == [] && !isLoading
    {
      image := None;
      selected := [];
      descriptions := [];
      isLoading := false;
    }

    /** The upload finished with `url`: the image slot holds it, replacing any earlier image. */
    method SetImage(url: string)
      requires Valid()
      modifies this
      ensures Valid()
      ensures image == Some(url)
      ensures selected == old(selected) && descriptions == old(descriptions) && isLoading == old(isLoading)
    {
      image := Some(url);
    }

    /** The remove button: the image slot is emptied; earlier results stay on screen. */
    method RemoveImage()
      requires Valid()
      modifies this
      ensures Valid()
      ensures image == None && !HasImage(image)
      ensures selected == old(selected) && descriptions == old(descriptions) && isLoading == old(isLoading)
    {
      image := None;
    }

    /** `handleLanguageSelect`, called by the picker with one of the catalog codes. */
    method ToggleLanguage(code: string)
      requires Valid()
      requires code in Languages.Codes(Languages.Catalog)
      modifies this
      ensures Valid()
      ensures selected == Selection.Toggle(old(selected), code)
      ensures image == old(image) && descriptions == old(descriptions) && isLoading == old(isLoading)
    {
      Selection.ToggleValid(selected, code);
      if code in selected {
        selected := Selection.Without(selected, code);
      } else if |selected| < Selection.MaxSelected {
        selected := selected + [code];
      }
    }

    /** `handleSubmit` up to its await: without an image or a language nothing happens;
        otherwise the form goes into loading and posts the current selection and image. */
    method BeginSubmit() returns (request: Option<GenerateRequest>)
      requires Valid()
      modifies this
      ensures Valid()
      ensures request.Some? <==> old(SubmitProceeds(image, selected))
      ensures request.Some? ==>
        (request.value.languages == old(selected) && Some(request.value.imageUrl) == old(image) &&
         isLoading)
      ensures request.None? ==> isLoading == old(isLoading)
      ensures image == old(image) && selected == old(selected) && descriptions == old(descriptions)
    {
      if !HasImage(image) || |selected| == 0 {
        return None;
      }
      isLoading := true;
      request := Some(GenerateRequest(selected, image.value));
    }

    /** `handleSubmit` after its await: the response replaces all earlier results at once
        and the form leaves loading; image and selection are untouched. */
    method CompleteSubmit(response: seq<Description>)
      requires Valid()
      modifies this
      ensures Valid()
      ensures descriptions == response && !isLoading
      ensures image == old(image) && selected == old(selected)
    {
      descriptions := response;
      isLoading := false;
    }

    /** A click on the generate button: a disabled button delivers no click, so a request
        is begun only from the idle state and never while another is in flight. */
    method PressGenerate() returns (request: Option<GenerateRequest>)
      requires Valid()
      modifies this
      ensures Valid()
      ensures request.Some? <==> !old(SubmitDisabled(image, selected, isLoading))
      ensures request.Some? ==>
        (!old(isLoading) && isLoading &&
         request.value.languages == old(selected) && Some(request.value.imageUrl) == old(image))
      ensures request.None? ==> isLoading == old(isLoading)
      ensures image == old(image) && selected == old(selected) && descriptions == old(descriptions)
    {
      if SubmitDisabled(image, selected, isLoading) {
        return None;
      }
      request := BeginSubmit();
    }

    /** The labels of the selected-language chips, in picking order; every one resolves. */
    function ChipLabels(): (r: seq<Option<string>>)
      reads this
      requires Valid()
      ensures |r| == |selected|
      ensures forall i :: 0 <= i < |selected| ==> r[i] == Languages.NameOf(selected[i]) && r[i].Some?
    {
      Languages.NamesOfCatalogCodes(selected);
      Languages.Names(selected)
    }

    /** The results section is shown exactly when it has at least one heading block to show. */
    function ShowsResults(): (shown: bool)
      reads this
      ensures shown <==> |Headings(descriptions)| > 0
    {
      |descriptions| > 0
    }
  }

  /** Upload an image, pick English, generate, and receive one English description:
      the request carries the selection and URL, and the result is headed "English". */
  method EnglishScenario()
  {
    var form := new FormController();
    form.SetImage("https://cdn.example/x.png");
    Languages.CatalogNames();
    assert Languages.Catalog[0].code == "en";
    form.ToggleLanguage("en");
    assert form.selected == ["en"];
    var request := form.PressGenerate();
    assert request == Some(GenerateRequest(["en"], "https://cdn.example/x.png"));
    assert form.isLoading;
    var again := form.PressGenerate();
    assert again == None;
    form.CompleteSubmit([Description("en", "A sleek widget.")]);
    assert Headings(form.descriptions) == [Some("English")];
    form.RemoveImage();
    assert form.descriptions == [Description("en", "A sleek widget.")];
  }
}
