/** The course catalog: static course records and the exact-match lookup by id.
    The catalog's contents are not part of this model; every tool receives the
    catalog as a parameter. */
module Courses {
  import opened Wrappers

  /** One course record of the catalog. */
  datatype Course = Course(
    courseId: string,
    name: string,
    price: string,
    description: string,
    support: string)

  /** The ids of the catalog, in catalog order (`[course["course_id"] for course in COURSES]`). */
  function CatalogIds(catalog: seq<Course>): (ids: seq<string>)
    ensures |ids| == |catalog|
    ensures forall k :: 0 <= k < |catalog| ==> ids[k] == catalog[k].courseId
  {
    if catalog == [] then [] else [catalog[0].courseId] + CatalogIds(catalog[1..])
  }

  /** Exact-match lookup of a course by id; the first match in catalog order wins. */
  function CourseById(catalog: seq<Course>, id: string): (r: Option<Course>)
    ensures r.None? <==> id !in CatalogIds(catalog)
    ensures r.Some? ==> r.value in catalog && r.value.courseId == id
  {
    if catalog == [] then None
    else if catalog[0].courseId == id then Some(catalog[0])
    else CourseById(catalog[1..], id)
  }
}
