/** The wire prefixes the client and the server both use. */
module Wire {
  /** The client's first message, `REGISTER:<username>`. */
  const RegisterPrefix := "REGISTER:"

  /** A private message, `WHISPER:<target>:<text>`. */
  const WhisperPrefix := "WHISPER:"
}
