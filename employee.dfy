/** The employee record of types/employee.ts. Ids are modelled as integers. */
module EmployeeTypes {

  datatype Option<T> = None | Some(value: T)

  /** One flat employee record. `color` and `parentId` are optional fields. */
  datatype Employee = Employee(
    id: int,
    name: string,
    title: string,
    avatar: string,
    color: Option<string>,
    parentId: Option<int>)

  /** The parent a record names when its `parentId` is truthy. An absent
      `parentId` and the numeric id 0 are both falsy, so they name no parent. */
  function ParentOf(e: Employee): Option<int>
  {
    if e.parentId.Some? && e.parentId.value != 0 then e.parentId else None
  }

  /** The set of ids that occur in a list of records. */
  function Ids(s: seq<Employee>): set<int>
  {
    set i | 0 <= i < |s| :: s[i].id
  }

  /** No two records share an id. */
  ghost predicate UniqueIds(s: seq<Employee>)
  {
    forall i, j :: 0 <= i < j < |s| ==> s[i].id != s[j].id
  }
}
