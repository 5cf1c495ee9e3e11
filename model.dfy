/**
 * The entities the TODO service and handler exchange: the TODO record, the
 * request envelopes the handler decodes, and the kinds of error the service
 * reports.
 */
module Model {

  /** A timestamp as the storage engine records it; the model never inspects it. */
  type Timestamp = int

  /** A persisted TODO as the service returns it. */
  datatype Todo = Todo(id: int, subject: string, description: string,
                       createdAt: Timestamp, updatedAt: Timestamp)

  /**
   * The errors the service can return, by kind:
   * Constraint is the `sqlite3.Error{Code: ErrConstraint}` raised for an empty subject,
   * NotFound is `model.ErrNotFound`, and Storage is any other error the database driver reports.
   */
  datatype ErrorKind = Constraint | NotFound | Storage

  datatype CreateTODORequest = CreateTODORequest(subject: string, description: string)
  datatype ReadTODORequest = ReadTODORequest(prevID: int, size: int)
  datatype UpdateTODORequest = UpdateTODORequest(id: int, subject: string, description: string)
  datatype DeleteTODORequest = DeleteTODORequest(ids: seq<int>)

  datatype CreateTODOResponse = CreateTODOResponse(todo: Todo)
  datatype ReadTODOResponse = ReadTODOResponse(todos: seq<Todo>)
  datatype UpdateTODOResponse = UpdateTODOResponse(todo: Todo)
  datatype DeleteTODOResponse = DeleteTODOResponse
}
