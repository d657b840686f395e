/** What a request handler of base/views.py hands back, with the framework's
    `render`, `redirect`, `HttpResponse` and `FileResponse` reduced to the
    page or target they name. */
module Http {
  import opened Models

  /** Handlers only distinguish POST from every other method. */
  datatype HttpMethod = Get | Post

  /** Templates a handler renders. */
  datatype Page =
    | HomePage
    | LoginRegister
    | ClassroomPage(id: Id)
    | ClassroomForm
    | ConspectForm
    | DeleteConfirm

  /** Named routes a handler redirects to. */
  datatype Target = Home | ClassroomView(id: Id) | Login

  datatype Response =
    | Render(page: Page)
    | Redirect(to: Target)
      /** The static 403 image the delete handlers send to non-owners. */
    | Forbidden
      /** A plain `HttpResponse` carrying a message. */
    | Text(body: string)
      /** An uncaught exception (a failed lookup, a violated unique
          constraint, an anonymous author): the framework's error page. */
    | ServerError
}
