/** The rows of the grooming calendar's tables, the rows its queries return and the records its
    endpoints answer with. */
module Rows {

  datatype Option<+T> = None | Some(value: T)

  /** What an endpoint answers: a value, or an HTTP status with the `error` message. */
  datatype Response<+T> = Ok(value: T) | Error(status: nat, message: string)

  datatype Client = Client(id: nat, name: string, phone: Option<string>)

  datatype Dog = Dog(id: nat, clientId: nat, name: string, breed: Option<string>)

  datatype Employee = Employee(id: nat, name: string, role: string, active: bool)

  datatype Service = Service(id: nat, name: string)

  /** An appointment row. Price is kept as the decimal string the database driver returns. */
  datatype Appointment = Appointment(
    id: nat,
    clientId: nat,
    dogId: nat,
    employeeId: nat,
    addedById: Option<nat>,
    date: string,
    startTime: string,
    endTime: string,
    status: string,
    serviceDescription: Option<string>,
    serviceId: Option<nat>,
    price: Option<string>,
    notes: Option<string>)

  /** One row of the calendar query: an appointment joined with its client, dog, performing
      employee, booking employee and catalogue service. */
  datatype ListRow = ListRow(
    id: nat,
    date: string,
    startTime: string,
    endTime: string,
    status: string,
    serviceDescription: Option<string>,
    price: Option<string>,
    notes: Option<string>,
    clientName: string,
    clientPhone: Option<string>,
    dogName: string,
    dogBreed: Option<string>,
    employeeName: string,
    serviceName: Option<string>,
    addedByName: Option<string>)

  /** An appointment as the calendar receives it from the listing. */
  datatype AppointmentView = AppointmentView(
    id: nat,
    date: string,
    timeStart: string,
    timeEnd: string,
    clientName: string,
    dogName: string,
    phone: string,
    service: string,
    employee: string,
    addedBy: Option<string>,
    status: string,
    price: Option<string>,
    notes: string)

  /** The narrower record a successful booking answers with. */
  datatype CreatedView = CreatedView(
    id: nat,
    date: string,
    timeStart: string,
    timeEnd: string,
    clientName: string,
    dogName: string,
    phone: string,
    service: Option<string>,
    employee: string,
    addedBy: Option<string>)

  /** One row of a client's appointment history. */
  datatype HistoryRow = HistoryRow(
    date: string,
    serviceDescription: Option<string>,
    status: string,
    dogName: string,
    serviceName: Option<string>)

  /** The summary the booking form shows for a phone number. */
  datatype ClientHistory = ClientHistory(
    isNew: bool,
    visitCount: nat,
    lastVisit: Option<string>,
    clientName: Option<string>,
    dogNames: seq<string>,
    services: seq<string>,
    clientId: Option<nat>)

  /** The contents of every table at one moment: what a transaction restores on rollback. */
  datatype Db = Db(
    clients: seq<Client>,
    dogs: seq<Dog>,
    employees: seq<Employee>,
    services: seq<Service>,
    appointments: seq<Appointment>)
}
