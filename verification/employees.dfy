/** The columns of the `employees` table that the payroll routes read,
    keyed by the employee's `id`. */
module Employees {
  import opened Keyed

  datatype Employee = Employee(fullName: string, role: string, monthlySalary: real)

  type EmployeeTable = seq<Entry<int, Employee>>
}
