/** The organisational records (academics/models.py) that the matching pipeline reads. */
module Academics {
  import opened Wrappers

  datatype School = School(name: string)

  /** A department may belong to a school (the foreign key is nullable). */
  datatype Department = Department(name: string, school: Option<School>)

  /** A programme always belongs to a department. */
  datatype Programme = Programme(name: string, department: Department)

  /** A supervisor's preferred programmes: a named group holding programme names. */
  datatype PreferenceGroup = PreferenceGroup(name: string, programmes: set<string>)
}
