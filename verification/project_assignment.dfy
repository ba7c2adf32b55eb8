/**
 * The application object: an employee repository, a project repository
 * (project id to project name), and the assignment of a project to an
 * employee with its two error cases.
 */
module ProjectAssignment {
  import opened Wrappers
  import opened Repositories
  import opened Employees

  /** The two failures of an assignment, carrying the id that was not found. */
  datatype AssignError = EmployeeNotFound(employeeId: string) | ProjectNotFound(projectId: string)

  class OopConcepts {
    const employeeRepository: Repository<Employee>
    const projectRepository: Repository<string>

    /** The two repositories, filled with the sample employees and projects. */
    constructor()
      ensures fresh(employeeRepository) && fresh(projectRepository)
      ensures forall e :: e in employeeRepository.items.Values ==> fresh(e)
      ensures employeeRepository.items.Keys == {"DEV001", "PM001"}
      ensures var dev := employeeRepository.items["DEV001"];
        dev.name == "Bodheesh VC" && dev.employeeId == "DEV001" && dev.role == SoftwareDeveloper && dev.projects == []
      ensures var manager := employeeRepository.items["PM001"];
        manager.name == "Alice Johnson" && manager.employeeId == "PM001" && manager.role == ProjectManager && manager.projects == []
      ensures projectRepository.items == SampleProjectNames()
    {
      var employees := SampleEmployees();
      var projects := SampleProjects();
      employeeRepository := employees;
      projectRepository := projects;
    }

    /** The project names the sample data stores, by project id. */
    static function SampleProjectNames(): map<string, string>
    {
      map["PROJ001" := "E-commerce Platform", "PROJ002" := "Mobile Banking App", "PROJ003" := "Real-time Chat System"]
    }

    /** The employee half of the sample data: one developer and one project manager. */
    static method SampleEmployees() returns (employees: Repository<Employee>)
      ensures fresh(employees)
      ensures forall e :: e in employees.items.Values ==> fresh(e)
      ensures employees.items.Keys == {"DEV001", "PM001"}
      ensures var dev := employees.items["DEV001"];
        dev.name == "Bodheesh VC" && dev.employeeId == "DEV001" && dev.role == SoftwareDeveloper && dev.projects == []
      ensures var manager := employees.items["PM001"];
        manager.name == "Alice Johnson" && manager.employeeId == "PM001" && manager.role == ProjectManager && manager.projects == []
    {
      employees := new Repository<Employee>();
      var dev := new Employee("Bodheesh VC", "DEV001", SoftwareDeveloper);
      var manager := new Employee("Alice Johnson", "PM001", ProjectManager);
      employees.Save("DEV001", dev);
      employees.Save("PM001", manager);
    }

    /** The project half of the sample data. */
    static method SampleProjects() returns (projects: Repository<string>)
      ensures fresh(projects)
      ensures projects.items == SampleProjectNames()
    {
      projects := new Repository<string>();
      projects.Save("PROJ001", "E-commerce Platform");
      projects.Save("PROJ002", "Mobile Banking App");
      projects.Save("PROJ003", "Real-time Chat System");
    }

    /**
     * Looks up the employee, then the project, and only when both exist
     * appends the project's name to the employee's list. A missing employee
     * is reported even when the project is missing too.
     */
    method AssignProjectToEmployee(employeeId: string, projectId: string) returns (outcome: Outcome<AssignError>)
      modifies employeeRepository.items.Values
      ensures outcome == Fail(EmployeeNotFound(employeeId)) <==> employeeId !in employeeRepository.items
      ensures outcome == Fail(ProjectNotFound(projectId)) <==>
        employeeId in employeeRepository.items && projectId !in projectRepository.items
      ensures outcome.Pass? <==> employeeId in employeeRepository.items && projectId in projectRepository.items
      ensures employeeRepository.items == old(employeeRepository.items)
      ensures projectRepository.items == old(projectRepository.items)
      ensures outcome.Fail? ==> unchanged(employeeRepository.items.Values)
      ensures outcome.Pass? ==>
        var employee := employeeRepository.items[employeeId];
        employee.projects == old(employee.projects) + [projectRepository.items[projectId]] &&
        forall other :: other in employeeRepository.items.Values && other != employee ==>
          other.projects == old(other.projects)
    {
      var employee := employeeRepository.FindById(employeeId);
      var project := projectRepository.FindById(projectId);
      if employee.None? {
        return Fail(EmployeeNotFound(employeeId));
      }
      if project.None? {
        return Fail(ProjectNotFound(projectId));
      }
      employee.value.AssignProject(project.value);
      outcome := Pass;
    }

    /** The project-assignment part of the demonstration: both sample assignments succeed. */
    static method AssignmentDemo() returns (demo: OopConcepts)
      ensures fresh(demo)
      ensures demo.employeeRepository.items.Keys == {"DEV001", "PM001"}
      ensures demo.employeeRepository.items["DEV001"].projects == ["E-commerce Platform"]
      ensures demo.employeeRepository.items["PM001"].projects == ["Mobile Banking App"]
    {
      demo := new OopConcepts();
      var first := demo.AssignProjectToEmployee("DEV001", "PROJ001");
      var second := demo.AssignProjectToEmployee("PM001", "PROJ002");
    }
  }
}
