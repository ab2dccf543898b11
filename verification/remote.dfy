/** The remote collaborators of the pipeline, as uninterpreted functions, and
    the record of which of them an operation consulted. */
module Remote {

  /** An embedding vector (`list[float]`); its numeric content is never inspected. */
  type Vector = seq<real>

  /** One remote request, with the text that was sent. */
  datatype Call =
      /** A chat completion of gpt-3.5-turbo (segmentation, classification, name fallback). */
    | Chat(prompt: string)
      /** An embedding request to text-embedding-3-small. */
    | Embed(text: string)
      /** A non-streaming generation request to the local llama3 endpoint. */
    | Generate(prompt: string)

  /** The remote models: what each returns for a given request. */
  datatype Oracles = Oracles(
    chat: string -> string,
    embed: string -> Vector,
    generate: string -> string)

  /** A value together with the remote requests issued to compute it, in order. */
  datatype Traced<T> = Traced(value: T, calls: seq<Call>)
}
