/**
 * The developer record of the C library and its validation rule.
 *
 * `salary` is a `float` in the C struct. Every operation modelled here only
 * compares two salaries or checks the sign of one, so an `int` stands for it.
 * The fixed-size `char` arrays become strings. C strings end at the first NUL;
 * these strings are assumed, not required, to contain no NUL character.
 */
module DeveloperRecords {

  datatype Developer = Developer(id: int, name: string, email: string, skills: string, salary: int)

  /**
   * validateDeveloper: the checks in the order the C makes them. The
   * non-empty-email check is subsumed by the '@' check, as the contract shows.
   */
  function ValidateDeveloper(dev: Developer): (ok: bool)
    ensures ok <==> dev.id > 0 && dev.name != [] && '@' in dev.email && dev.salary >= 0
  {
    if dev.id <= 0 then false
    else if |dev.name| == 0 then false
    else if |dev.email| == 0 then false
    else if dev.salary < 0 then false
    else '@' in dev.email
  }
}
