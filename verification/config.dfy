/** The constant tables of the application configuration: the four roles with
    their descriptions, the five priority labels with their importance levels
    and the four task statuses, each in declaration order. */
module Config {

  const Roles: seq<(string, string)> := [
    ("Owner",
     "Can create, read, modify, delete tasks, "
     + "reassign responsible person. Cannot change status of tasks. "
     + "Cannot be assigned responsibility for a task"),
    ("Admin",
     "Can create, read, modify, delete tasks, "
     + "reassign responsible person, change status of tasks. "
     + "Cannot be assigned responsibility for a task"),
    ("Project Manager",
     "Can create, read, modify, delete tasks, "
     + "reassign responsible person, change status of tasks. "
     + "Can be assigned responsibility for a task"),
    ("Developer",
     "Can read tasks, change status of tasks. "
     + "Cannot reassign responsible person, "
     + "Can be assigned responsibility for a task")
  ]

  const RoleNames: seq<string> := ["Owner", "Admin", "Project Manager", "Developer"]

  /** Importance level and label, 1 = most urgent. */
  const PriorityLabels: seq<(int, string)> := [
    (1, "Highest"),
    (2, "Critical"),
    (3, "Alarming"),
    (4, "Act Soon"),
    (5, "Lowest")
  ]

  const PriorityNames: seq<string> := ["Highest", "Critical", "Alarming", "Act Soon", "Lowest"]

  const Statuses: seq<string> := ["TODO", "In progress", "Done", "Backlog"]

  /** The role names listed separately agree with the role table. */
  lemma RoleNamesAgree()
    ensures |RoleNames| == |Roles|
    ensures forall i :: 0 <= i < |Roles| ==> RoleNames[i] == Roles[i].0
  {
  }

  /** The priority labels listed separately agree with the priority table. */
  lemma PriorityNamesAgree()
    ensures |PriorityNames| == |PriorityLabels|
    ensures forall i :: 0 <= i < |PriorityLabels| ==> PriorityNames[i] == PriorityLabels[i].1
    ensures forall i :: 0 <= i < |PriorityLabels| ==> PriorityLabels[i].0 == i + 1
  {
  }
}
