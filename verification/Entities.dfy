/** Plain values shared by the other modules: the rows of the student and enrollment tables. */
module Entities {

  datatype Option<+T> = None | Some(value: T)

  /** One row of the student table, without its primary key. */
  datatype Student = Student(
    name: string, age: Option<int>, email: string, departmentId: int, userId: Option<int>, version: nat)

  /** One row of the enrollment table, without its primary key. */
  datatype Enrollment = Enrollment(
    studentId: int, offeringId: int, code: string, grade: Option<int>, isActive: bool, isWithdrawn: bool)

  /** A column after an UPDATE that sets it, or leaves it alone. */
  function OrKeep<T>(set_: Option<T>, kept: T): T {
    if set_.Some? then set_.value else kept
  }

  /** The value to write for a requested column: nothing if it would not change. */
  function Changed<T(==)>(wanted: Option<T>, present: Option<T>): Option<T> {
    if wanted == present then None else wanted
  }
}
