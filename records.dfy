/**
 * The values the session controller and the appointments list share: the
 * signed-in user, the status of an appointment and the appointment record.
 * Both source files declare the same `Appointment` shape; it is declared once here.
 */
module Records {

  datatype User = User(name: string, email: string)

  /** `'solicitado' | 'em_andamento' | 'concluido'`. */
  datatype Status = Solicitado | EmAndamento | Concluido

  /** The string literal that stands for each status in the source. */
  function StatusKey(st: Status): (key: string)
  {
    match st
    case Solicitado => "solicitado"
    case EmAndamento => "em_andamento"
    case Concluido => "concluido"
  }

  const StatusKeys: set<string> := {"solicitado", "em_andamento", "concluido"}

  datatype Appointment = Appointment(
    id: string,
    date: string,
    time: string,
    description: string,
    technician: string,
    status: Status)
}
