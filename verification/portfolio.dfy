/** The project record the gallery and the project cards display.
    Every other content array of the page is inert display data and is not modelled. */
module Portfolio {
  import opened Wrappers

  /** One entry of a project's metrics object, in authoring order. */
  datatype Metric = Metric(key: string, value: string)

  datatype Project = Project(
    title: string,
    description: string,
    longDescription: string,
    tech: seq<string>,
    images: seq<string>,
    featured: bool,
    metrics: Option<seq<Metric>>
  )

  /** Image source shown when the referenced image is missing or empty. */
  const Placeholder: string := "/placeholder.svg"

  /** The rule every entry of the static projects array follows: at least one image.
      Nothing checks it at run time; the gallery's index invariant depends on it. */
  predicate WellFormedCatalogue(catalogue: seq<Project>) {
    forall p :: p in catalogue ==> |p.images| > 0
  }

  /** The card thumbnail: the first image, falling back to the placeholder when
      there is no first image or it is the empty string (JavaScript's `||`). */
  function Thumbnail(p: Project): (r: string)
    ensures |p.images| > 0 && p.images[0] != "" ==> r == p.images[0]
    ensures |p.images| > 0 && p.images[0] == "" ==> r == Placeholder
    ensures |p.images| == 0 ==> r == Placeholder
    ensures r != ""
  {
    if |p.images| > 0 && p.images[0] != "" then p.images[0] else Placeholder
  }
}
