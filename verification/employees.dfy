/**
 * Employees and their project lists. Developers and project managers keep
 * their lists with the same code (append on assign, remove the first
 * occurrence on complete), so one class with a role tag models both.
 */
module Employees {

  datatype Role = SoftwareDeveloper | ProjectManager

  /** The list with the first occurrence of `name` taken out; unchanged when there is none. */
  function RemoveFirst(projects: seq<string>, name: string): (rest: seq<string>)
    ensures name !in projects ==> rest == projects
    ensures name in projects ==> |rest| == |projects| - 1
  {
    if projects == [] then []
    else if projects[0] == name then projects[1..]
    else
      assert projects[0] in projects;
      [projects[0]] + RemoveFirst(projects[1..], name)
  }

  /** Completing a project takes exactly one copy of it out of the list, if there is one. */
  lemma {:induction false} RemoveFirstMultiset(projects: seq<string>, name: string)
    ensures multiset(RemoveFirst(projects, name)) == multiset(projects) - multiset{name}
  {
    if projects != [] {
      assert projects == [projects[0]] + projects[1..];
      if projects[0] != name {
        RemoveFirstMultiset(projects[1..], name);
      }
    }
  }

  /** Exactly the first occurrence goes: the items before and after it stay in order. */
  lemma {:induction false} RemoveFirstAt(projects: seq<string>, name: string, i: int)
    requires 0 <= i < |projects| && projects[i] == name
    requires forall k :: 0 <= k < i ==> projects[k] != name
    ensures RemoveFirst(projects, name) == projects[..i] + projects[i + 1..]
  {
    if i > 0 {
      var tail := projects[1..];
      RemoveFirstAt(tail, name, i - 1);
      assert RemoveFirst(projects, name) == [projects[0]] + (tail[..i - 1] + tail[i..]);
      assert [projects[0]] + tail[..i - 1] == projects[..i];
      assert tail[i..] == projects[i + 1..];
    }
  }

  class Employee {
    const name: string
    const employeeId: string
    const role: Role
    /** assignedProjects of a developer, managedProjects of a project manager. */
    var projects: seq<string>

    constructor(name: string, employeeId: string, role: Role)
      ensures this.name == name && this.employeeId == employeeId && this.role == role
      ensures projects == []
    {
      this.name := name;
      this.employeeId := employeeId;
      this.role := role;
      projects := [];
    }

    /** Appends the project to the end of the list. */
    method AssignProject(projectName: string)
      modifies this
      ensures projects == old(projects) + [projectName]
    {
      projects := projects + [projectName];
    }

    /** A new list holding the projects, which the caller may change freely. */
    method GetAssignedProjects() returns (copy: array<string>)
      ensures fresh(copy)
      ensures copy[..] == projects
    {
      copy := new string[|projects|](i requires 0 <= i < |projects| reads this => projects[i]);
    }

    /** Removes the first occurrence of the project, if it is there. */
    method CompleteProject(projectName: string)
      modifies this
      ensures projects == RemoveFirst(old(projects), projectName)
    {
      projects := RemoveFirst(projects, projectName);
    }
  }
}
