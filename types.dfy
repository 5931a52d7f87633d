/**
 * Record shapes of the lesson-balance tracker: a registered student and one
 * entry of the activity log.  Timestamps are abstract integers counted in days.
 */
module Types {

  /** The fixed sizes of a prepaid lesson package. */
  type PackageSize = n: int | n == 4 || n == 8 || n == 12 || n == 16 || n == 20 witness 8

  /** What a log entry records: one lesson consumed, or lessons added. */
  datatype Action = CheckIn | Deposit

  /**
   * A registered student.  `lessonBalance` is a plain signed number: nothing
   * in the type stops it from going below zero.
   */
  datatype Student = Student(
    id: string,
    name: string,
    contractedPackage: PackageSize,
    lessonBalance: int,
    lastPaymentDate: int,
    cycleExpiration: int)

  /**
   * One activity-log entry.  It names its student only by `studentId` and a
   * copied `studentName`; it does not own the student, so an id that no
   * longer resolves is representable.
   */
  datatype AttendanceLog = AttendanceLog(
    id: string,
    timestamp: int,
    studentId: string,
    studentName: string,
    action: Action,
    adjustment: int)

  /** Every package is a positive multiple of four lessons, at most twenty. */
  lemma PackageIsPositive(p: PackageSize)
    ensures 0 < p <= 20 && p % 4 == 0
  {
  }
}
